// The two copies together: console, FPGA, serial link and MCU as one system, and
// the chip both copies are meant to hold.

module EepromMirror {
  import opened Words
  import opened EepromChip
  import opened EepromFpga
  import opened EepromMcu

  /** `bits` is the MCU's SPI shift register, `fifo` its receive FIFO; `released` counts
      releases of the busy line that the FPGA has not seen yet. */
  datatype Sys = Sys(fpga: Fpga, mcu: Mcu, bits: seq<bool>, fifo: seq<u16>, released: nat)

  datatype Event =
    | Bus(reg: Register, data: u8)
    | SClk(seen: bool)  // `seen`: the synchronised falling edge of MCUReady, if one is due
    | McuIrq

  /** The sixteen bits of a received word, as the number the MCU reads from its FIFO. */
  function Word(bits: seq<bool>): u16
    requires |bits| == 16
  {
    assert Pow2(16) == 0x1_0000 by { assert Pow2(8) == 256; assert Pow2(12) == 4096; }
    ToBitsFromBits(bits);
    FromBits(bits)
  }

  function Receive(bits: seq<bool>, fifo: seq<u16>, bit: bool): (seq<bool>, seq<u16>) {
    if |bits| < 15 then (bits + [bit], fifo) else ([], fifo + [Word(bits[..15] + [bit])])
  }

  function Step(size: Size, s: Sys, e: Event): (s': Sys)
    requires ValidMcu(s.mcu)
    ensures ValidMcu(s'.mcu)
  {
    match e
    case Bus(reg, data) => s.(fpga := NWEEdge(s.fpga, size, reg, data))
    case SClk(seen) =>
      var falling := seen && s.released > 0;
      var link := if s.fpga.clkEnable && !s.fpga.sel then Receive(s.bits, s.fifo, SpiOut(s.fpga)) else (s.bits, s.fifo);
      s.(fpga := SClkEdge(s.fpga, size, falling), bits := link.0, fifo := link.1,
         released := if falling then s.released - 1 else s.released)
    case McuIrq =>
      if s.fifo == [] then s
      else
        var r := ExchWord(s.mcu, s.fifo[0]);
        s.(mcu := r.0, fifo := s.fifo[1..], released := s.released + (if r.1 then 1 else 0))
  }

  // ----- the chip the system stands for -----

  /** `words` is a faithful chip.  What the copies should hold, before and after the command in
      progress: `mcuWords` obeys only the commands that are forwarded, the erase-all of
      `fpgaWords` may stop early.  Then the write counter with which that command started, and
      the write-enable latch. */
  datatype Chip = Chip(words: Image, mcuBefore: Image, mcuWords: Image, fpgaBefore: Image, fpgaWords: Image,
                       first: u10, writeEnabled: bool)

  const FPGA_ERASE_ALL := 0x12

  /** The words an erase-all reaches in the FPGA: it ends when the counter is 0x11, so one that
      starts above goes through every address before the counter wraps. */
  function EraseReach(size: Size, first: u10): (n: nat)
    ensures n <= 1024
  {
    if first == 0 then FPGA_ERASE_ALL else WordCount(size)
  }

  /** The write or erase that a console write asks for when ready, whatever the latch says. */
  function Asked(size: Size, s: Sys, e: Event): Option<Cmd> {
    if e.Bus? && e.reg.SelCtrl? && s.fpga.Ready() then Requested(Op(size, s.fpga.command), e.data) else None
  }

  /** The command that a console write starts in the FPGA, if it starts one. */
  function Started(size: Size, s: Sys, e: Event): Option<Cmd> {
    if s.fpga.writeProtect then None else Asked(size, s, e)
  }

  function ChipStep(size: Size, c: Chip, s: Sys, e: Event): Chip {
    match Asked(size, s, e)
    case Some(cmd) =>
      if !c.writeEnabled then c
      else
        Chip(Obey(c.words, size, cmd, s.fpga.command, s.fpga.dataOut, WordCount(size)), c.mcuWords,
             if IsForwarded(cmd, s.fpga.counter)
             then Obey(c.mcuWords, size, cmd, s.fpga.command, s.fpga.dataOut, WordCount(size)) else c.mcuWords,
             c.fpgaWords,
             Obey(c.fpgaWords, size, cmd, s.fpga.command, s.fpga.dataOut, EraseReach(size, s.fpga.counter)),
             s.fpga.counter, c.writeEnabled)
    case None =>
      if e.Bus? && e.reg.SelCtrl? && s.fpga.Ready() && e.data / 16 == 4 && Op(size, s.fpga.command) == 16
      then c.(writeEnabled := false)
      else if e.Bus? && e.reg.SelCtrl? && s.fpga.Ready() && e.data / 16 == 4 && Op(size, s.fpga.command) == 19
      then c.(writeEnabled := true)
      else c
  }

  /** Is a command forwarded if it starts with the write counter there?  Writes and erase-alls end
      at a fixed counter value, so they run on until the counter has wrapped and sent them. */
  predicate IsForwarded(cmd: Cmd, counter: u10) {
    counter == 0 || cmd.CmdWrite? || cmd.CmdEraseAll?
  }

  /** The console leaves command and data alone until ready. */
  predicate Patient(s: Sys, e: Event) {
    e.Bus? && !e.reg.SelCtrl? && !e.reg.SelNone? ==> s.fpga.Ready()
  }

  /** And before an erase or a write-all it lets the serial clock edge pass that clears the write
      counter, so that every command it starts is forwarded. */
  predicate Polite(size: Size, s: Sys, e: Event) {
    && Patient(s, e)
    && (Started(size, s, e).Some? ==> IsForwarded(Started(size, s, e).value, s.fpga.counter))
  }

  predicate Matched(size: Size, m: Mcu) {
    && m.addressMask + 1 == WordCount(size)
    && m.commandBits == (if size.Size128B? then 4 else 8)
  }

  // ----- the invariant -----

  function CommandWords(f: Fpga): (w: seq<u16>)
    ensures 1 <= |w| <= 2
  {
    if f.cmd.HasData() then [f.command, f.dataOut] else [f.command]
  }

  function WireBits(f: Fpga): (b: seq<bool>)
    ensures |b| == 16 * |CommandWords(f)|
  {
    if f.cmd.HasData() then ToBits(f.command, 16) + ToBits(f.dataOut, 16) else ToBits(f.command, 16)
  }

  /** Has the command started late in the counter's range, and not wrapped yet? */
  predicate Leads(f: Fpga) {
    f.InternalBusy() && ((f.cmd.CmdWrite? && f.counter > 0x21) || (f.cmd.CmdEraseAll? && f.counter > 0x11))
  }

  /** Bits on the wire so far: the clock runs while the counter goes from 2 to 2 + |WireBits|. */
  function BitsOut(f: Fpga): (n: nat)
    ensures n <= |WireBits(f)|
  {
    if !f.InternalBusy() then |WireBits(f)|
    else if f.counter < 2 || Leads(f) then 0
    else if f.counter - 2 < |WireBits(f)| then f.counter - 2
    else |WireBits(f)|
  }

  function LastCounter(cmd: Cmd, size: Size): (n: nat)
    ensures n < 1024
  {
    match cmd
    case CmdWrite => 0x21
    case CmdEraseAll => 0x11
    case _ => WordCount(size) - 1
  }

  /** May a forwarded command of this kind have started with the counter at `first`? */
  predicate FirstOk(size: Size, cmd: Cmd, first: u10) {
    first % WordCount(size) == 0 && IsForwarded(cmd, first)
  }

  /** What an erase-all of `n` words that started at `first` has erased when it gets to `counter`. */
  function LateFill(w: Image, first: u10, n: nat, counter: u10): Image
    requires n <= 1024
  {
    if first <= counter < first + n then Fill(w, counter - first, 0xFFFF) else Fill(w, n, 0xFFFF)
  }

  /** The FPGA's words when the internal write has got to `counter`. */
  function PartlyWritten(size: Size, c: Chip, cmd: Cmd, counter: u10, v: u16): Image
    requires FirstOk(size, cmd, c.first)
  {
    match cmd
    case CmdWrite => if counter == c.first then c.fpgaBefore else c.fpgaWords
    case CmdErase => if counter == 0 then c.fpgaBefore else c.fpgaWords
    case CmdWriteAll => Fill(c.fpgaBefore, counter, v)
    case CmdEraseAll =>
      if c.first == 0 then Fill(c.fpgaBefore, counter, v)
      else LateFill(c.fpgaBefore, c.first, WordCount(size), counter)
  }

  ghost predicate Expected(size: Size, f: Fpga, c: Chip) {
    && OpIs(Op(size, f.command), f.cmd) && FirstOk(size, f.cmd, c.first)
    && c.mcuWords == Obey(c.mcuBefore, size, f.cmd, f.command, f.dataOut, WordCount(size))
    && c.fpgaWords == Obey(c.fpgaBefore, size, f.cmd, f.command, f.dataOut, EraseReach(size, c.first))
  }

  /** Words of the command in progress that the MCU has taken. */
  function Taken(f: Fpga, fifo: seq<u16>): int {
    BitsOut(f) / 16 - |fifo|
  }

  /** What is on the way to the MCU: the whole words it has not taken, then a partial one. */
  ghost predicate WireOk(f: Fpga, bits: seq<bool>, fifo: seq<u16>) {
    var n := BitsOut(f);
    && 0 <= Taken(f, fifo)
    && bits == WireBits(f)[n / 16 * 16..n]
    && fifo == CommandWords(f)[Taken(f, fifo)..n / 16]
  }

  /** The serial clock has not started for the command under way. */
  predicate Unsent(f: Fpga) {
    f.InternalBusy() && (f.counter == 0 || Leads(f))
  }

  /** What the MCU did with the words it took. */
  ghost predicate McuOk(f: Fpga, m: Mcu, released: nat, c: Chip, taken: int) {
    if taken < |CommandWords(f)| then
      && m.data == c.mcuBefore && released == 0
      && m.writeCommand == (if taken == 0 then 0 else f.command)
      && (f.externalBusy || Unsent(f))
    else
      && m.data == c.mcuWords && m.writeCommand == 0
      && released == (if f.externalBusy then 1 else 0)
  }

  ghost predicate LinkOk(size: Size, s: Sys, c: Chip) {
    && WireOk(s.fpga, s.bits, s.fifo)
    && McuOk(s.fpga, s.mcu, s.released, c, Taken(s.fpga, s.fifo))
  }

  /** The counter of an internal write: on its way to the last value, or before its wrap. */
  predicate Counting(size: Size, f: Fpga) {
    f.counter <= LastCounter(f.cmd, size) || (Leads(f) && !size.Size2KB? && f.counter >= WordCount(size))
  }

  /** The FPGA's own registers while a command is in progress. */
  ghost predicate WriterOk(size: Size, f: Fpga, c: Chip)
    requires FirstOk(size, f.cmd, c.first)
  {
    if f.InternalBusy() then
      && Counting(size, f) && (Leads(f) ==> 0 < c.first <= f.counter)
      && (Unsent(f) ==> !f.externalBusy) && (f.clkEnable ==> !f.sel)
      && f.clkEnable == (2 <= f.counter < 2 + |WireBits(f)|)
      && f.memory == PartlyWritten(size, c, f.cmd, f.counter, WriteData(f))
    else
      && (f.counter == 0 || f.counter >= 0x12)
      && !f.clkEnable && f.memory == c.fpgaWords
  }

  /** After an internal write the counter is cleared by the next serial clock edge; ready can come
      before that edge only if the counter stopped at the number of words. */
  predicate CounterOk(size: Size, f: Fpga) {
    !f.InternalBusy() ==> f.counter == 0 || f.externalBusy || f.counter == WordCount(size) % 1024
  }

  ghost predicate BusyOk(size: Size, s: Sys, c: Chip) {
    Expected(size, s.fpga, c) && LinkOk(size, s, c) && WriterOk(size, s.fpga, c) && CounterOk(size, s.fpga)
  }

  ghost predicate ReadyOk(size: Size, s: Sys, c: Chip) {
    && s.bits == [] && s.fifo == [] && s.released == 0
    && s.mcu.writeCommand == 0 && s.mcu.data == c.mcuWords
    && s.fpga.memory == c.fpgaWords && !s.fpga.clkEnable
    && s.fpga.counter % WordCount(size) == 0
  }

  /** The commands whose internal write ends when the counter reaches the last word. */
  predicate EndsAtLastWord(cmd: Cmd) {
    cmd.CmdErase? || cmd.CmdWriteAll?
  }

  /** A command is under way that started too late to be forwarded. */
  predicate Lost(f: Fpga, c: Chip) {
    c.first != 0 && EndsAtLastWord(f.cmd)
  }

  /** The FPGA's words while such a command is carried out. */
  function LostWritten(size: Size, c: Chip, f: Fpga): Image
    requires f.counter >= c.first
  {
    if f.cmd.CmdWriteAll? then Fill(c.fpgaBefore, f.counter - c.first, f.dataOut)
    else if f.counter == c.first then c.fpgaBefore
    else c.fpgaWords
  }

  /** Meanwhile nothing stirs on the link, and the MCU keeps what it has. */
  ghost predicate LostOk(size: Size, s: Sys, c: Chip) {
    var f := s.fpga;
    && s.bits == [] && s.fifo == [] && s.released == 0 && s.mcu.writeCommand == 0
    && s.mcu.data == c.mcuBefore == c.mcuWords
    && f.InternalBusy() && !f.externalBusy && !f.clkEnable
    && c.first % WordCount(size) == 0 && c.first <= f.counter < c.first + WordCount(size)
    && c.fpgaWords == Obey(c.fpgaBefore, size, f.cmd, f.command, f.dataOut, WordCount(size))
    && f.memory == LostWritten(size, c, f)
  }

  ghost predicate Inv(size: Size, s: Sys, c: Chip) {
    && Matched(size, s.mcu)
    && c.writeEnabled == !s.fpga.writeProtect
    && (if s.fpga.Ready() then ReadyOk(size, s, c)
        else if Lost(s.fpga, c) then LostOk(size, s, c)
        else BusyOk(size, s, c))
  }

  /** When a command is done, nothing of it is left on the way. */
  lemma DoneIsReady(size: Size, s: Sys, c: Chip)
    requires BusyOk(size, s, c) && s.fpga.Ready()
    ensures ReadyOk(size, s, c)
  {
  }

  /** What starting a command does to the registers. */
  lemma StartRegisters(size: Size, s: Sys, c: Chip, e: Event)
    requires Inv(size, s, c) && Started(size, s, e).Some?
    ensures s.fpga.Ready() && ReadyOk(size, s, c) && Matched(size, s.mcu)
    ensures var t := Step(size, s, e);
            && t.fpga.InternalBusy() && !t.fpga.clkEnable && !t.fpga.externalBusy && !t.fpga.writeProtect
            && t.fpga.cmd == Started(size, s, e).value && t.fpga.counter == s.fpga.counter
            && t.fpga.command == s.fpga.command && t.fpga.dataOut == s.fpga.dataOut && t.fpga.memory == s.fpga.memory
            && t.mcu == s.mcu && t.fifo == [] && t.bits == [] && t.released == 0
            && OpIs(Op(size, t.fpga.command), t.fpga.cmd)
  {
    hide Address, ToBits;
  }

  lemma StartChip(size: Size, s: Sys, c: Chip, e: Event)
    requires c.writeEnabled == !s.fpga.writeProtect && Started(size, s, e).Some?
    ensures var d, cmd := ChipStep(size, c, s, e), Started(size, s, e).value;
            && d.words == Obey(c.words, size, cmd, s.fpga.command, s.fpga.dataOut, WordCount(size))
            && d.mcuBefore == c.mcuWords && d.fpgaBefore == c.fpgaWords
            && d.mcuWords == (if IsForwarded(cmd, s.fpga.counter)
                              then Obey(c.mcuWords, size, cmd, s.fpga.command, s.fpga.dataOut, WordCount(size))
                              else c.mcuWords)
            && d.fpgaWords == Obey(c.fpgaWords, size, cmd, s.fpga.command, s.fpga.dataOut,
                                   EraseReach(size, s.fpga.counter))
            && d.first == s.fpga.counter && d.writeEnabled
  {
    hide Obey, Op, EraseReach;
  }

  /** A command just started, as the invariant sees it. */
  lemma StartsBusy(size: Size, t: Sys, d: Chip)
    requires t.fpga.InternalBusy() && !t.fpga.clkEnable && !t.fpga.externalBusy && t.fpga.counter == d.first
    requires FirstOk(size, t.fpga.cmd, d.first) && t.fpga.memory == d.fpgaBefore && t.mcu.data == d.mcuBefore
    requires t.fifo == [] && t.bits == [] && t.released == 0 && t.mcu.writeCommand == 0
    ensures LinkOk(size, t, d) && WriterOk(size, t.fpga, d) && CounterOk(size, t.fpga)
  {
    var f := t.fpga;
    assert Unsent(f) && BitsOut(f) == 0;
    LastBitLeaves(f, size);
    LeadsAreHigh(f, size);
    FillNone(d.fpgaBefore, WriteData(f));
    hide ToBits, Leads, LastCounter, WordCount, Fill;
  }

  lemma FillNone(w: Image, v: u16)
    ensures Fill(w, 0, v) == w
  {
  }

  lemma StartOk(size: Size, s: Sys, c: Chip, e: Event)
    requires Inv(size, s, c) && Started(size, s, e).Some? && Patient(s, e)
    ensures Inv(size, Step(size, s, e), ChipStep(size, c, s, e))
  {
    StartRegisters(size, s, c, e);
    StartChip(size, s, c, e);
    var cmd := Started(size, s, e).value;
    hide Step, ChipStep, Started, Asked, Obey, LinkOk, WriterOk, CounterOk, OpIs, Op;
    if IsForwarded(cmd, s.fpga.counter) {
      StartsBusy(size, Step(size, s, e), ChipStep(size, c, s, e));
    } else {
      StartsLost(size, s, Step(size, s, e), ChipStep(size, c, s, e));
    }
  }

  /** A late erase or write-all, as the invariant sees it; erase-all's reach does not matter. */
  lemma StartsLost(size: Size, s: Sys, t: Sys, d: Chip)
    requires t.fpga.InternalBusy() && !t.fpga.clkEnable && !t.fpga.externalBusy && t.fpga.counter == d.first
    requires !IsForwarded(t.fpga.cmd, d.first) && d.first % WordCount(size) == 0
    requires t.fpga.memory == d.fpgaBefore && t.mcu.data == d.mcuBefore == d.mcuWords
    requires t.fifo == [] && t.bits == [] && t.released == 0 && t.mcu.writeCommand == 0
    requires d.fpgaWords ==
             Obey(d.fpgaBefore, size, t.fpga.cmd, t.fpga.command, t.fpga.dataOut, EraseReach(size, d.first))
    ensures Lost(t.fpga, d) && LostOk(size, t, d)
  {
    FillNone(d.fpgaBefore, t.fpga.dataOut);
    hide Address, Fill;
  }

  /** A read latched while the MCU is still at work touches nothing else. */
  lemma LatchOk(size: Size, s: Sys, c: Chip, data: u8)
    requires Inv(size, s, c) && !s.fpga.Ready()
    ensures Inv(size, s.(fpga := ReadLatch(s.fpga, size, data)), c)
  {
    LatchFrame(s.fpga, size, data);
    var f, g := s.fpga, ReadLatch(s.fpga, size, data);
    assert BitsOut(g) == BitsOut(f) && WireBits(g) == WireBits(f) && CommandWords(g) == CommandWords(f);
  }

  lemma LatchFrame(f: Fpga, size: Size, data: u8)
    ensures var h := ReadLatch(f, size, data);
            && h.writeDone == f.writeDone && h.writeStart == f.writeStart && h.externalBusy == f.externalBusy
            && h.memory == f.memory && h.clkEnable == f.clkEnable && h.counter == f.counter
            && h.writeProtect == f.writeProtect && h.sel == f.sel
            && h.cmd == f.cmd && h.command == f.command && h.dataOut == f.dataOut
  {
    hide ToBits, Address, Op, DoRead;
  }

  lemma CtrlNoStart(f: Fpga, size: Size, data: u8)
    requires f.Ready() && (f.writeProtect || Requested(Op(size, f.command), data).None?)
    ensures var g := CtrlWrite(f, size, data);
            && g.writeDone == f.writeDone && g.writeStart == f.writeStart && g.externalBusy == f.externalBusy
            && g.memory == f.memory && g.clkEnable == f.clkEnable && g.counter == f.counter
            && g.writeProtect == (if data / 16 == 4 && Op(size, f.command) == 16 then true
                                  else if data / 16 == 4 && Op(size, f.command) == 19 then false
                                  else f.writeProtect)
  {
    LatchFrame(f, size, data);
    hide ToBits, Address, ReadLatch, Op, DoRead;
  }

  lemma NoStartFrame(f: Fpga, size: Size, reg: Register, data: u8)
    requires f.Ready() && (reg.SelCtrl? ==> f.writeProtect || Requested(Op(size, f.command), data).None?)
    ensures var g := NWEEdge(f, size, reg, data);
            && g.Ready() && g.memory == f.memory && g.clkEnable == f.clkEnable && g.counter == f.counter
            && g.writeProtect == (if reg.SelCtrl? && data / 16 == 4 && Op(size, f.command) == 16 then true
                                  else if reg.SelCtrl? && data / 16 == 4 && Op(size, f.command) == 19 then false
                                  else f.writeProtect)
  {
    if reg.SelCtrl? {
      CtrlNoStart(f, size, data);
      hide CtrlWrite;
      assert NWEEdge(f, size, reg, data) == CtrlWrite(f, size, data);
    }
  }

  lemma BusOk(size: Size, s: Sys, c: Chip, e: Event)
    requires Inv(size, s, c) && e.Bus? && Started(size, s, e).None? && Patient(s, e)
    ensures Inv(size, Step(size, s, e), ChipStep(size, c, s, e))
  {
    if s.fpga.Ready() {
      QuietOk(size, s, c, e);
    } else {
      BlockedStep(size, s, c, e);
      if e.reg.SelCtrl? {
        LatchOk(size, s, c, e.data);
      }
      hide Inv, Step, ChipStep, Started;
    }
  }

  lemma BlockedStep(size: Size, s: Sys, c: Chip, e: Event)
    requires ValidMcu(s.mcu) && e.Bus? && !s.fpga.Ready() && Patient(s, e)
    ensures ChipStep(size, c, s, e) == c
    ensures Step(size, s, e) == if e.reg.SelCtrl? then s.(fpga := ReadLatch(s.fpga, size, e.data)) else s
  {
    hide ReadLatch, Obey;
  }

  lemma QuietOk(size: Size, s: Sys, c: Chip, e: Event)
    requires Inv(size, s, c) && e.Bus? && Started(size, s, e).None? && s.fpga.Ready()
    ensures Inv(size, Step(size, s, e), ChipStep(size, c, s, e))
  {
    NoStartFrame(s.fpga, size, e.reg, e.data);
    QuietChip(size, s, c, e);
    hide NWEEdge, ChipStep, Started, BusyOk, LostOk, Op;
  }

  lemma QuietChip(size: Size, s: Sys, c: Chip, e: Event)
    requires c.writeEnabled == !s.fpga.writeProtect && e.Bus? && Started(size, s, e).None? && s.fpga.Ready()
    ensures ChipStep(size, c, s, e) ==
            if e.reg.SelCtrl? && e.data / 16 == 4 && Op(size, s.fpga.command) == 16 then c.(writeEnabled := false)
            else if e.reg.SelCtrl? && e.data / 16 == 4 && Op(size, s.fpga.command) == 19 then c.(writeEnabled := true)
            else c
  {
    hide Obey, Address;
  }

  // ----- the MCU takes a word -----

  /** The MCU decodes the command word as the FPGA did. */
  lemma SameDecoding(size: Size, m: Mcu, command: u16)
    requires Matched(size, m)
    ensures CommandOf(m.commandBits, command) == Op(size, command)
    ensures command % (m.addressMask + 1) == Address(size, command)
  {
    assert Pow2(4) == 16 && Pow2(8) == 256 by { assert Pow2(6) == 64; }
  }

  lemma CommandWord(size: Size, m: Mcu, cmd: Cmd, command: u16, data: u16)
    requires Matched(size, m) && ValidMcu(m) && m.writeCommand == 0 && OpIs(Op(size, command), cmd)
    ensures ExchWord(m, command) ==
            if cmd.HasData() then (m.(writeCommand := command), false)
            else (m.(data := Obey(m.data, size, cmd, command, data, WordCount(size))), true)
  {
    SameDecoding(size, m, command);
  }

  lemma DataWord(size: Size, m: Mcu, cmd: Cmd, command: u16, data: u16)
    requires Matched(size, m) && ValidMcu(m) && m.writeCommand == command
    requires OpIs(Op(size, command), cmd) && cmd.HasData()
    ensures ExchWord(m, data) ==
            (m.(writeCommand := 0, data := Obey(m.data, size, cmd, command, data, WordCount(size))), true)
  {
    SameDecoding(size, m, command);
    assert command != 0;
  }

  lemma IrqLinkOk(size: Size, s: Sys, c: Chip)
    requires Matched(size, s.mcu) && ValidMcu(s.mcu) && Expected(size, s.fpga, c) && LinkOk(size, s, c)
    requires s.fifo != [] && (s.fpga.externalBusy || Unsent(s.fpga))
    requires s.fpga.externalBusy || BitsOut(s.fpga) == 0
    ensures LinkOk(size, Step(size, s, McuIrq), c)
  {
    hide ToBits, ExchWord, Obey, Op, OpIs;
    var f := s.fpga;
    var w := CommandWords(f);
    var taken := Taken(f, s.fifo);
    assert s.fifo[0] == w[taken];
    assert s.fifo[1..] == w[taken + 1..BitsOut(f) / 16];
    if taken == 0 {
      CommandWord(size, s.mcu, f.cmd, f.command, f.dataOut);
    } else {
      DataWord(size, s.mcu, f.cmd, f.command, f.dataOut);
    }
  }

  lemma IrqOk(size: Size, s: Sys, c: Chip)
    requires Inv(size, s, c)
    ensures Inv(size, Step(size, s, McuIrq), c)
  {
    if s.fifo != [] {
      IrqLinkOk(size, s, c);
    }
  }

  // ----- one edge of the serial clock -----

  lemma SpiOutBit(f: Fpga, i: nat)
    requires i < |WireBits(f)| && f.counter == i + 2
    ensures SpiOut(f) == WireBits(f)[i]
  {
  }

  lemma LastCounterEnds(size: Size, f: Fpga)
    requires Counting(size, f)
    ensures CounterAtLast(f.cmd, size, f.counter) <==> f.counter == LastCounter(f.cmd, size)
    ensures LastCounter(f.cmd, size) + 1 <= 1024
  {
    assert f.counter < WordCount(size) ==> f.counter % WordCount(size) == f.counter;
  }

  lemma EdgeRegisters(f: Fpga, size: Size, falling: bool)
    requires f.InternalBusy() && Counting(size, f)
    ensures var g := SClkEdge(f, size, falling);
            && g.InternalBusy() == (f.counter != LastCounter(f.cmd, size))
            && g.counter == (f.counter + 1) % 1024
            && g.cmd == f.cmd && g.command == f.command && g.dataOut == f.dataOut
            && g.externalBusy == (!falling && (f.externalBusy || f.counter == 0))
  {
    LastCounterEnds(size, f);
    hide ToBits, WriteAddr, WriteData, CounterAtLast, LastCounter, Counting;
  }

  /** One edge further, the counter is still on its way, or has wrapped. */
  lemma CountingNext(f: Fpga, size: Size, falling: bool)
    requires f.InternalBusy() && Counting(size, f)
    ensures var g := SClkEdge(f, size, falling);
            && (g.InternalBusy() ==> Counting(size, g) && (Leads(g) ==> Leads(f)))
            && (g.InternalBusy() && !Leads(f) ==> g.counter == f.counter + 1)
            && (Leads(f) ==> g.InternalBusy() && (if f.counter == 1023 then g.counter == 0 else Leads(g)))
  {
    EdgeRegisters(f, size, falling);
    hide ToBits, SClkEdge, CounterAtLast;
  }

  lemma BitsOutNext(f: Fpga, size: Size, falling: bool)
    requires f.InternalBusy() && Counting(size, f)
    ensures var g := SClkEdge(f, size, falling);
            && g.InternalBusy() == (f.counter != LastCounter(f.cmd, size))
            && g.counter == (f.counter + 1) % 1024
            && g.cmd == f.cmd && g.command == f.command && g.dataOut == f.dataOut
            && BitsOut(g) == BitsOut(f) + (if 2 <= f.counter < 2 + |WireBits(f)| then 1 else 0)
  {
    EdgeRegisters(f, size, falling);
    CountingNext(f, size, falling);
    LastBitLeaves(f, size);
    LeadsAreHigh(f, size);
    hide ToBits, SClkEdge, CounterAtLast, LastCounter, CommandWords, Leads, Counting;
    var g := SClkEdge(f, size, falling);
    assert |WireBits(g)| == |WireBits(f)|;
  }

  lemma LeadsAreHigh(f: Fpga, size: Size)
    requires f.InternalBusy() && Counting(size, f)
    ensures Leads(f) ==> f.counter >= 64
    ensures !Leads(f) ==> f.counter <= LastCounter(f.cmd, size)
    ensures |WireBits(f)| <= 32
  {
    hide ToBits;
  }

  /** The internal write never ends before the last bit is out. */
  lemma LastBitLeaves(f: Fpga, size: Size)
    ensures 1 + |WireBits(f)| <= LastCounter(f.cmd, size) < 1024
    ensures |WireBits(f)| >= 16
  {
    hide ToBits;
  }

  lemma ReceiveBit(wire: seq<bool>, k: nat, r: nat, fifo: seq<u16>)
    requires r < 16 && 16 * k + 16 <= |wire|
    ensures Receive(wire[16 * k..16 * k + r], fifo, wire[16 * k + r]) ==
            if r < 15 then (wire[16 * k..16 * k + r + 1], fifo)
            else ([], fifo + [Word(wire[16 * k..16 * k + 16])])
  {
    hide Word;
    var bits := wire[16 * k..16 * k + r];
    if r == 15 {
      assert bits[..15] + [wire[16 * k + r]] == wire[16 * k..16 * k + 16];
    } else {
      assert bits + [wire[16 * k + r]] == wire[16 * k..16 * k + r + 1];
    }
  }

  lemma ReceiveOk(f: Fpga, n: nat, fifo: seq<u16>)
    requires n < |WireBits(f)|
    ensures Receive(WireBits(f)[n / 16 * 16..n], fifo, WireBits(f)[n]) ==
            (WireBits(f)[(n + 1) / 16 * 16..n + 1],
             if (n + 1) % 16 == 0 then fifo + [CommandWords(f)[n / 16]] else fifo)
  {
    hide ToBits, Word, Receive;
    var wire, k, r := WireBits(f), n / 16, n % 16;
    WordArrives(f, k);
    ReceiveBit(wire, k, r, fifo);
    assert n == 16 * k + r && wire[n / 16 * 16..n] == wire[16 * k..16 * k + r];
    if r < 15 {
      assert (n + 1) / 16 == k && (n + 1) % 16 == r + 1;
    } else {
      assert (n + 1) / 16 == k + 1 && wire[(n + 1) / 16 * 16..n + 1] == [];
    }
  }

  lemma WordArrives(f: Fpga, k: nat)
    requires k < |CommandWords(f)|
    ensures Word(WireBits(f)[16 * k..16 * k + 16]) == CommandWords(f)[k]
  {
    assert Pow2(16) == 0x1_0000 by { assert Pow2(8) == 256; assert Pow2(12) == 4096; }
    FromBitsToBits(CommandWords(f)[k], 16);
    assert WireBits(f)[16 * k..16 * k + 16] == ToBits(CommandWords(f)[k], 16);
  }

  lemma FillNext(w: Image, n: nat, v: u16)
    requires n < 1024
    ensures Fill(w, n, v)[n := v] == Fill(w, n + 1, v)
  {
  }

  /** The block RAM after the edge at `counter`. */
  ghost predicate WrittenNext(size: Size, f: Fpga, c: Chip)
    requires FirstOk(size, f.cmd, c.first)
  {
    f.memory[WriteAddr(f, size) := WriteData(f)] ==
      if f.counter != LastCounter(f.cmd, size)
      then PartlyWritten(size, c, f.cmd, (f.counter + 1) % 1024, WriteData(f))
      else c.fpgaWords
  }

  lemma LateFillIs(w: Image, first: u10, n: nat, counter: u10, k: nat)
    requires n == 64 || n == 512
    requires if first <= counter < first + n then k == counter - first else k == n
    ensures LateFill(w, first, n, counter) == Fill(w, k, 0xFFFF)
  {
    hide Fill;
  }

  /** It has been over all its words before the counter wraps. */
  lemma LateFillNext(w: Image, first: u10, n: nat, counter: u10)
    requires (n == 64 || n == 512) && first % n == 0 && 0 < first && (counter <= 0x11 || first <= counter)
    ensures LateFill(w, first, n, counter)[counter % n := 0xFFFF] == LateFill(w, first, n, (counter + 1) % 1024)
  {
    hide Fill, LateFill;
    var next := (counter + 1) % 1024;
    InBlock(first, n, counter);
    if first <= counter < first + n {
      var k := counter - first;
      LateFillIs(w, first, n, counter, k);
      LateFillIs(w, first, n, next, k + 1);
      FillNext(w, k, 0xFFFF);
    } else {
      LateFillIs(w, first, n, counter, n);
      LateFillIs(w, first, n, next, n);
      FillAgain(w, n, counter % n, 0xFFFF);
    }
  }

  lemma InBlock(first: u10, n: nat, counter: u10)
    requires (n == 64 || n == 512) && first % n == 0 && 0 < first && (counter <= 0x11 || first <= counter)
    ensures first + n <= 1024
    ensures first <= counter < first + n ==> counter % n == counter - first
    ensures var next := (counter + 1) % 1024;
            if first <= counter < first + n - 1 then first <= next < first + n else !(first <= next < first + n)
  {
  }

  lemma FillAgain(w: Image, n: nat, i: nat, v: u16)
    requires i < n <= 1024
    ensures Fill(w, n, v)[i := v] == Fill(w, n, v)
  {
  }

  lemma LateEraseAllNext(size: Size, f: Fpga, c: Chip)
    requires Expected(size, f, c) && f.InternalBusy() && Counting(size, f)
    requires f.cmd.CmdEraseAll? && c.first != 0 && (Leads(f) ==> 0 < c.first <= f.counter)
    requires f.memory == PartlyWritten(size, c, f.cmd, f.counter, WriteData(f))
    ensures WrittenNext(size, f, c)
  {
    SmallerSize(size, c.first);
    LateFillNext(c.fpgaBefore, c.first, WordCount(size), f.counter);
    LateLast(c.fpgaBefore, c.first, WordCount(size));
    hide Op, Address, Fill, LateFill;
  }

  lemma SmallerSize(size: Size, first: u10)
    requires first % WordCount(size) == 0 && first != 0
    ensures (WordCount(size) == 64 || WordCount(size) == 512) && first >= WordCount(size)
    ensures first + WordCount(size) <= 1024
  {
  }

  lemma LateLast(w: Image, first: u10, n: nat)
    requires (n == 64 || n == 512) && first >= n
    ensures LateFill(w, first, n, 0x12) == Fill(w, n, 0xFFFF)
  {
  }

  lemma FilledAll(size: Size, f: Fpga, c: Chip)
    requires Expected(size, f, c) && ((f.cmd.CmdEraseAll? && c.first == 0) || f.cmd.CmdWriteAll?)
    ensures c.fpgaWords == Fill(c.fpgaBefore, LastCounter(f.cmd, size) + 1, WriteData(f))
  {
    hide Op, OpIs, Address, Fill;
  }

  lemma CountedAddress(size: Size, f: Fpga)
    requires f.counter <= LastCounter(f.cmd, size) && (f.cmd.CmdEraseAll? || f.cmd.CmdWriteAll?)
    ensures WriteAddr(f, size) == f.counter
    ensures f.counter != LastCounter(f.cmd, size) ==> (f.counter + 1) % 1024 == f.counter + 1
  {
  }

  lemma CountedFillNext(size: Size, f: Fpga, c: Chip)
    requires Expected(size, f, c) && f.InternalBusy() && f.counter <= LastCounter(f.cmd, size)
    requires (f.cmd.CmdEraseAll? && c.first == 0) || f.cmd.CmdWriteAll?
    requires f.memory == PartlyWritten(size, c, f.cmd, f.counter, WriteData(f))
    ensures WrittenNext(size, f, c)
  {
    hide Op, OpIs, Address, Obey, Fill, WriteAddr, WriteData, LastCounter, EraseReach, WordCount;
    CountedAddress(size, f);
    FilledAll(size, f, c);
    FillNext(c.fpgaBefore, f.counter, WriteData(f));
  }

  lemma OneWordNext(size: Size, f: Fpga, c: Chip)
    requires Expected(size, f, c) && f.InternalBusy() && Counting(size, f) && (Leads(f) ==> 0 < c.first <= f.counter)
    requires f.cmd.CmdErase? || f.cmd.CmdWrite?
    requires f.memory == PartlyWritten(size, c, f.cmd, f.counter, WriteData(f))
    ensures WrittenNext(size, f, c)
  {
    assert f.memory[WriteAddr(f, size) := WriteData(f)] == c.fpgaWords;
    if f.counter != LastCounter(f.cmd, size) {
      NotFirst(size, f, c);
    }
    hide Expected, WriteAddr, WriteData, Leads, Counting, LastCounter;
  }

  /** The counter of a single-word command does not come back to where it started. */
  lemma NotFirst(size: Size, f: Fpga, c: Chip)
    requires FirstOk(size, f.cmd, c.first) && f.InternalBusy() && Counting(size, f) && (Leads(f) ==> 0 < c.first <= f.counter)
    requires (f.cmd.CmdErase? || f.cmd.CmdWrite?) && f.counter != LastCounter(f.cmd, size)
    ensures (f.counter + 1) % 1024 != (if f.cmd.CmdErase? then 0 else c.first)
  {
  }

  lemma MemoryNext(size: Size, f: Fpga, c: Chip)
    requires Expected(size, f, c) && f.InternalBusy() && Counting(size, f) && (Leads(f) ==> 0 < c.first <= f.counter)
    requires f.memory == PartlyWritten(size, c, f.cmd, f.counter, WriteData(f))
    ensures WrittenNext(size, f, c)
  {
    hide WrittenNext, PartlyWritten, OpIs, Op, Obey, WriteData;
    if f.cmd.CmdEraseAll? && c.first != 0 {
      LateEraseAllNext(size, f, c);
    } else if f.cmd.CmdEraseAll? || f.cmd.CmdWriteAll? {
      CountedFillNext(size, f, c);
    } else {
      OneWordNext(size, f, c);
    }
  }

  lemma ClockEnableNext(size: Size, f: Fpga, falling: bool)
    requires f.InternalBusy() && Counting(size, f)
    requires f.clkEnable == (2 <= f.counter < 2 + |WireBits(f)|) && (f.clkEnable ==> !f.sel)
    ensures SClkEdge(f, size, falling).clkEnable ==
            (f.counter != LastCounter(f.cmd, size) && 2 <= (f.counter + 1) % 1024 < 2 + |WireBits(f)|)
    ensures SClkEdge(f, size, falling).clkEnable ==> !SClkEdge(f, size, falling).sel
  {
    ClockEnableIs(size, f, falling);
    LastBitLeaves(f, size);
    LeadsAreHigh(f, size);
    WireLength(f);
    hide SClkEdge, LastCounter, WireBits, Counting, Leads;
  }

  lemma WireLength(f: Fpga)
    ensures |WireBits(f)| == if f.cmd.HasData() then 32 else 16
  {
    hide ToBits;
  }

  lemma ClockEnableIs(size: Size, f: Fpga, falling: bool)
    ensures SClkEdge(f, size, falling).clkEnable ==
            if f.counter == 1 then true
            else if f.counter == 0x21 || (f.counter == 0x11 && !f.cmd.HasData()) then false
            else f.clkEnable
    ensures SClkEdge(f, size, falling).sel ==
            if f.counter == 1 then false
            else if f.counter == 0x22 || (f.counter == 0x12 && !f.cmd.HasData()) then true
            else f.sel
  {
    hide WriteAddr, WriteData, CounterAtLast;
  }

  lemma WriterNext(size: Size, f: Fpga, c: Chip, falling: bool)
    requires Expected(size, f, c) && f.InternalBusy() && WriterOk(size, f, c)
    ensures WriterOk(size, SClkEdge(f, size, falling), c)
  {
    var g := SClkEdge(f, size, falling);
    EdgeRegisters(f, size, falling);
    CountingNext(f, size, falling);
    ClockEnableNext(size, f, falling);
    MemoryNext(size, f, c);
    assert g.memory == f.memory[WriteAddr(f, size) := WriteData(f)];
    hide SClkEdge;
    WriterAssembled(size, f, g, c, falling);
  }

  lemma WriterAssembled(size: Size, f: Fpga, g: Fpga, c: Chip, falling: bool)
    requires FirstOk(size, f.cmd, c.first) && f.InternalBusy() && Counting(size, f) && (Leads(f) ==> 0 < c.first <= f.counter)
    requires g.InternalBusy() == (f.counter != LastCounter(f.cmd, size))
    requires g.counter == (f.counter + 1) % 1024
    requires g.InternalBusy() ==> Counting(size, g) && (Leads(g) ==> Leads(f))
    requires g.cmd == f.cmd && g.dataOut == f.dataOut && (Unsent(f) ==> !f.externalBusy)
    requires g.externalBusy == (!falling && (f.externalBusy || f.counter == 0))
    requires g.clkEnable == (g.InternalBusy() && 2 <= g.counter < 2 + |WireBits(f)|) && (g.clkEnable ==> !g.sel)
    requires g.memory == if g.InternalBusy() then PartlyWritten(size, c, f.cmd, g.counter, WriteData(f)) else c.fpgaWords
    ensures WriterOk(size, g, c)
  {
    LastBitLeaves(f, size);
    LeadsAreHigh(f, size);
    hide ToBits, PartlyWritten, Counting;
    assert |WireBits(g)| == |WireBits(f)| && WriteData(g) == WriteData(f);
  }

  /** The edge's effect on the link, while the internal write runs. */
  lemma WireNext(f: Fpga, g: Fpga, bits: seq<bool>, fifo: seq<u16>)
    requires WireOk(f, bits, fifo) && g.cmd == f.cmd && g.command == f.command && g.dataOut == f.dataOut
    requires BitsOut(f) < |WireBits(f)| && BitsOut(g) == BitsOut(f) + 1
    ensures var link := Receive(bits, fifo, WireBits(f)[BitsOut(f)]);
            WireOk(g, link.0, link.1) && Taken(g, link.1) == Taken(f, fifo)
  {
    hide ToBits, Word, Receive;
    var n := BitsOut(f);
    var words := CommandWords(f);
    var taken := Taken(f, fifo);
    ReceiveOk(f, n, fifo);
    var link := Receive(bits, fifo, WireBits(f)[n]);
    assert WireBits(g) == WireBits(f) && CommandWords(g) == words;
    if (n + 1) % 16 == 0 {
      assert (n + 1) / 16 == n / 16 + 1;
      assert words[taken..n / 16] + [words[n / 16]] == words[taken..n / 16 + 1];
    } else {
      assert (n + 1) / 16 == n / 16;
    }
    assert Taken(g, link.1) == taken;
  }

  lemma LinkNext(size: Size, s: Sys, c: Chip, seen: bool)
    requires ValidMcu(s.mcu) && s.fpga.InternalBusy() && FirstOk(size, s.fpga.cmd, c.first)
    requires LinkOk(size, s, c) && WriterOk(size, s.fpga, c)
    ensures LinkOk(size, Step(size, s, SClk(seen)), c)
  {
    hide ToBits, Word, Receive;
    var f := s.fpga;
    var s' := Step(size, s, SClk(seen));
    BitsOutNext(f, size, seen && s.released > 0);
    if f.clkEnable {
      SpiOutBit(f, BitsOut(f));
      WireNext(f, s'.fpga, s.bits, s.fifo);
    }
    assert WireOk(s'.fpga, s'.bits, s'.fifo);
  }

  /** A write or erase-all whose last bit leaves with the last edge is not answered by then. */
  lemma EndsUnanswered(size: Size, s: Sys, c: Chip)
    requires LinkOk(size, s, c) && s.fpga.InternalBusy()
    requires (s.fpga.cmd.CmdWrite? || s.fpga.cmd.CmdEraseAll?) && s.fpga.counter == LastCounter(s.fpga.cmd, size)
    ensures s.fpga.externalBusy && s.released == 0
  {
    assert BitsOut(s.fpga) / 16 < |CommandWords(s.fpga)|;
    hide WireBits, ToBits;
  }

  lemma CounterNext(size: Size, s: Sys, c: Chip, falling: bool)
    requires LinkOk(size, s, c) && s.fpga.InternalBusy() && Counting(size, s.fpga)
    requires falling ==> s.released > 0
    ensures CounterOk(size, SClkEdge(s.fpga, size, falling))
  {
    var f := s.fpga;
    EdgeRegisters(f, size, falling);
    if f.counter == LastCounter(f.cmd, size) && (f.cmd.CmdWrite? || f.cmd.CmdEraseAll?) {
      EndsUnanswered(size, s, c);
    }
    hide SClkEdge, LinkOk;
  }

  lemma WritingEdge(size: Size, s: Sys, c: Chip, seen: bool)
    requires Inv(size, s, c) && s.fpga.InternalBusy() && !Lost(s.fpga, c)
    ensures Inv(size, Step(size, s, SClk(seen)), c)
  {
    var s' := Step(size, s, SClk(seen));
    LinkNext(size, s, c, seen);
    WriterNext(size, s.fpga, c, seen && s.released > 0);
    CounterNext(size, s, c, seen && s.released > 0);
    assert BusyOk(size, s', c) by {
      hide LinkOk, WriterOk, CounterOk, Obey, ToBits, Receive;
    }
    if s'.fpga.Ready() {
      DoneIsReady(size, s', c);
    }
  }

  lemma LostRegisters(f: Fpga, size: Size, first: u10)
    requires f.InternalBusy() && EndsAtLastWord(f.cmd) && !f.clkEnable && !f.externalBusy
    requires first != 0 && first % WordCount(size) == 0 && first <= f.counter < first + WordCount(size)
    ensures var g := SClkEdge(f, size, false);
            && g.InternalBusy() == (f.counter + 1 < first + WordCount(size))
            && g.cmd == f.cmd && !g.clkEnable && !g.externalBusy && g.writeProtect == f.writeProtect
            && g.command == f.command && g.dataOut == f.dataOut
            && g.counter == (f.counter + 1) % 1024
            && (g.counter == f.counter + 1 || (g.counter == 0 && f.counter + 1 == first + WordCount(size)))
            && g.memory == f.memory[if f.cmd.CmdWriteAll? then f.counter - first
                                    else Address(size, f.command) := WriteData(f)]
  {
    SmallerSize(size, first);
    InOneBlock(first, WordCount(size), f.counter);
    hide Address, WordCount;
  }

  lemma InOneBlock(first: u10, n: nat, counter: u10)
    requires (n == 64 || n == 512) && first % n == 0 && first <= counter < first + n
    ensures counter % n == counter - first
  {
  }

  /** An edge of a command that is being lost. */
  lemma LostEdge(size: Size, s: Sys, c: Chip, seen: bool)
    requires Inv(size, s, c) && s.fpga.InternalBusy() && Lost(s.fpga, c)
    ensures Inv(size, Step(size, s, SClk(seen)), c)
  {
    LostRegisters(s.fpga, size, c.first);
    SmallerSize(size, c.first);
    LostMemory(size, s.fpga, c);
    hide SClkEdge, Address, Fill, SpiOut, Obey, ToBits;
  }

  lemma LostMemory(size: Size, f: Fpga, c: Chip)
    requires Lost(f, c) && c.first <= f.counter < c.first + WordCount(size) && f.counter - c.first < 1024
    requires c.fpgaWords == Obey(c.fpgaBefore, size, f.cmd, f.command, f.dataOut, WordCount(size))
    requires f.memory == LostWritten(size, c, f)
    ensures f.memory[if f.cmd.CmdWriteAll? then f.counter - c.first else Address(size, f.command) := WriteData(f)] ==
            if f.counter + 1 == c.first + WordCount(size) then c.fpgaWords
            else if f.cmd.CmdWriteAll? then Fill(c.fpgaBefore, f.counter - c.first + 1, f.dataOut)
            else c.fpgaWords
  {
    hide Fill;
    FillNext(c.fpgaBefore, f.counter - c.first, f.dataOut);
  }

  lemma RestingEdge(f: Fpga, size: Size, falling: bool)
    requires !f.InternalBusy() && (f.counter == 0 || f.counter >= 0x12) && !f.clkEnable
    ensures var g := SClkEdge(f, size, falling);
            && !g.InternalBusy() && g.counter == 0 && g.memory == f.memory && !g.clkEnable
            && g.externalBusy == (f.externalBusy && !falling)
            && g.cmd == f.cmd && g.command == f.command && g.dataOut == f.dataOut && g.writeProtect == f.writeProtect
            && BitsOut(g) == BitsOut(f) && CommandWords(g) == CommandWords(f) && WireBits(g) == WireBits(f)
  {
    hide ToBits, WriteAddr, WriteData, CounterAtLast;
  }

  lemma WaitingEdge(size: Size, s: Sys, c: Chip, seen: bool)
    requires Inv(size, s, c) && !s.fpga.InternalBusy()
    ensures Inv(size, Step(size, s, SClk(seen)), c)
  {
    RestingEdge(s.fpga, size, seen && s.released > 0) by { RestsHigh(size, s, c); }
    if s.fpga.Ready() {
      hide ToBits, Receive, SClkEdge, SpiOut, LostOk, BusyOk;
    } else {
      AwaitingEdge(size, s, c, seen);
    }
  }

  lemma AwaitingEdge(size: Size, s: Sys, c: Chip, seen: bool)
    requires Inv(size, s, c) && !s.fpga.InternalBusy() && !s.fpga.Ready()
    ensures Inv(size, Step(size, s, SClk(seen)), c)
  {
    RestsHigh(size, s, c);
    RestingEdge(s.fpga, size, seen && s.released > 0);
    NotLost(size, s, c);
    var s' := Step(size, s, SClk(seen));
    SameLost(s.fpga, s'.fpga, c);
    AwaitsBusy(size, s, s', c, seen && s.released > 0) by {
      hide SClkEdge, BusyOk, LostOk, BitsOut, CommandWords, WireBits;
    }
    hide Step, SClkEdge, BitsOut, WireBits, CommandWords, LostOk, Lost, BusyOk;
    if s'.fpga.Ready() {
      DoneIsReady(size, s', c);
    }
  }

  lemma AwaitsBusy(size: Size, s: Sys, t: Sys, c: Chip, falling: bool)
    requires BusyOk(size, s, c) && !s.fpga.InternalBusy() && !s.fpga.Ready() && !t.fpga.InternalBusy()
    requires t.mcu == s.mcu && t.bits == s.bits && t.fifo == s.fifo
    requires falling ==> s.released > 0
    requires t.released == if falling then s.released - 1 else s.released
    requires var f, g := s.fpga, t.fpga;
             && g.counter == 0 && g.memory == f.memory && !g.clkEnable
             && g.externalBusy == (f.externalBusy && !falling)
             && g.cmd == f.cmd && g.command == f.command && g.dataOut == f.dataOut
             && BitsOut(g) == BitsOut(f) && CommandWords(g) == CommandWords(f) && WireBits(g) == WireBits(f)
    ensures BusyOk(size, t, c)
  {
    SameExpected(size, s.fpga, t.fpga, c);
    hide BitsOut, WireBits, CommandWords, Expected;
  }

  lemma SameLost(f: Fpga, g: Fpga, c: Chip)
    requires g.cmd == f.cmd
    ensures Lost(g, c) == Lost(f, c)
  {
  }

  lemma SameExpected(size: Size, f: Fpga, g: Fpga, c: Chip)
    requires g.cmd == f.cmd && g.command == f.command && g.dataOut == f.dataOut && Expected(size, f, c)
    ensures Expected(size, g, c)
  {
  }

  lemma RestsHigh(size: Size, s: Sys, c: Chip)
    requires Inv(size, s, c) && !s.fpga.InternalBusy()
    ensures (s.fpga.counter == 0 || s.fpga.counter >= 0x12) && !s.fpga.clkEnable
  {
    hide Expected, LinkOk, CounterOk;
  }

  lemma NotLost(size: Size, s: Sys, c: Chip)
    requires Inv(size, s, c) && !s.fpga.InternalBusy() && !s.fpga.Ready()
    ensures !Lost(s.fpga, c)
  {
  }

  lemma StepOk(size: Size, s: Sys, c: Chip, e: Event)
    requires Inv(size, s, c) && Patient(s, e)
    ensures Inv(size, Step(size, s, e), ChipStep(size, c, s, e))
  {
    match e
    case Bus(_, _) => if Started(size, s, e).Some? { StartOk(size, s, c, e); } else { BusOk(size, s, c, e); }
    case SClk(seen) =>
      if !s.fpga.InternalBusy() {
        WaitingEdge(size, s, c, seen);
      } else if Lost(s.fpga, c) {
        LostEdge(size, s, c, seen);
      } else {
        WritingEdge(size, s, c, seen);
      }
    case McuIrq => IrqOk(size, s, c);
  }

  // ----- whole runs -----

  function Run(size: Size, s: Sys, es: seq<Event>): (s': Sys)
    requires ValidMcu(s.mcu)
    ensures ValidMcu(s'.mcu)
  {
    if es == [] then s else Step(size, Run(size, s, es[..|es| - 1]), es[|es| - 1])
  }

  function RunChip(size: Size, c: Chip, s: Sys, es: seq<Event>): Chip
    requires ValidMcu(s.mcu)
  {
    if es == [] then c
    else ChipStep(size, RunChip(size, c, s, es[..|es| - 1]), Run(size, s, es[..|es| - 1]), es[|es| - 1])
  }

  predicate PatientRun(size: Size, s: Sys, es: seq<Event>)
    requires ValidMcu(s.mcu)
  {
    es == [] ||
    (PatientRun(size, s, es[..|es| - 1]) && Patient(Run(size, s, es[..|es| - 1]), es[|es| - 1]))
  }

  predicate PoliteRun(size: Size, s: Sys, es: seq<Event>)
    requires ValidMcu(s.mcu)
  {
    es == [] ||
    (PoliteRun(size, s, es[..|es| - 1]) && Polite(size, Run(size, s, es[..|es| - 1]), es[|es| - 1]))
  }

  lemma {:induction false} PoliteIsPatient(size: Size, s: Sys, es: seq<Event>)
    requires ValidMcu(s.mcu) && PoliteRun(size, s, es)
    ensures PatientRun(size, s, es)
  {
    hide Started, Patient;
    if es != [] {
      PoliteIsPatient(size, s, es[..|es| - 1]);
    }
  }

  /** Power-up with matched types and equal contents. */
  ghost predicate PowerUp(size: Size, s: Sys, c: Chip) {
    var f := s.fpga;
    && Matched(size, s.mcu)
    && !f.writeDone && !f.writeStart && f.counter == 0 && !f.clkEnable && !f.externalBusy && f.writeProtect
    && s.bits == [] && s.fifo == [] && s.released == 0 && s.mcu.writeCommand == 0
    && f.memory == s.mcu.data == c.words == c.mcuWords == c.fpgaWords && !c.writeEnabled
  }

  lemma {:induction false} RunOk(size: Size, s: Sys, c: Chip, es: seq<Event>)
    requires ValidMcu(s.mcu) && Inv(size, s, c) && PatientRun(size, s, es)
    ensures Inv(size, Run(size, s, es), RunChip(size, c, s, es))
  {
    hide Inv, Step, ChipStep, Patient;
    if es != [] {
      var prev := es[..|es| - 1];
      RunOk(size, s, c, prev);
      StepOk(size, Run(size, s, prev), RunChip(size, c, s, prev), es[|es| - 1]);
    }
  }

  lemma PowerUpInv(size: Size, s0: Sys, c0: Chip)
    requires PowerUp(size, s0, c0) && ValidMcu(s0.mcu)
    ensures Inv(size, s0, c0)
  {
  }

  lemma StartsEqual(size: Size, s0: Sys, c0: Chip)
    requires PowerUp(size, s0, c0)
    ensures c0.words == c0.mcuWords == c0.fpgaWords
  {
  }

  /** Main result: whatever is started when, whenever the console reads ready, each copy holds what
      it should: the MCU's the commands that are forwarded, the block RAM's all commands, with a
      short erase-all.  Nothing is left on the link, and the latch is the chip's. */
  lemma ReadyMeansMirrored(size: Size, s0: Sys, c0: Chip, es: seq<Event>)
    requires PowerUp(size, s0, c0) && ValidMcu(s0.mcu) && PatientRun(size, s0, es)
    ensures var s, c := Run(size, s0, es), RunChip(size, c0, s0, es);
            && s.fpga.writeProtect == !c.writeEnabled
            && |s.fifo| <= 2
            && (s.fpga.Ready() ==>
                  && s.mcu.data == c.mcuWords && s.fpga.memory == c.fpgaWords
                  && s.bits == [] && s.fifo == [] && s.mcu.writeCommand == 0)
  {
    PowerUpInv(size, s0, c0);
    RunOk(size, s0, c0, es);
  }

  /** No erase-all starts with the write counter clear. */
  predicate NoEraseAll(size: Size, s: Sys, es: seq<Event>)
    requires ValidMcu(s.mcu)
  {
    es == [] ||
    (NoEraseAll(size, s, es[..|es| - 1]) &&
     (Started(size, Run(size, s, es[..|es| - 1]), es[|es| - 1]) == Some(CmdEraseAll) ==>
        Run(size, s, es[..|es| - 1]).fpga.counter != 0))
  }

  lemma ChipStepCoincides(size: Size, c: Chip, s: Sys, e: Event)
    requires c.writeEnabled == !s.fpga.writeProtect && Polite(size, s, e)
    ensures c.words == c.mcuWords ==> ChipStep(size, c, s, e).words == ChipStep(size, c, s, e).mcuWords
    ensures c.words == c.fpgaWords && (Started(size, s, e) == Some(CmdEraseAll) ==> s.fpga.counter != 0) ==>
              ChipStep(size, c, s, e).words == ChipStep(size, c, s, e).fpgaWords
  {
    hide Op, Address, Fill;
  }

  lemma LatchesAgree(size: Size, s: Sys, c: Chip)
    requires Inv(size, s, c)
    ensures c.writeEnabled == !s.fpga.writeProtect
  {
  }

  lemma {:induction false} ChipsCoincide(size: Size, s: Sys, c: Chip, es: seq<Event>)
    requires ValidMcu(s.mcu) && Inv(size, s, c) && PoliteRun(size, s, es)
    ensures var d := RunChip(size, c, s, es);
            && (c.words == c.mcuWords ==> d.words == d.mcuWords)
            && (c.words == c.fpgaWords && NoEraseAll(size, s, es) ==> d.words == d.fpgaWords)
  {
    hide Inv, Step, ChipStep, Started, Polite;
    if es != [] {
      var prev := es[..|es| - 1];
      ChipsCoincide(size, s, c, prev);
      PoliteIsPatient(size, s, prev);
      RunOk(size, s, c, prev);
      LatchesAgree(size, Run(size, s, prev), RunChip(size, c, s, prev));
      ChipStepCoincides(size, RunChip(size, c, s, prev), Run(size, s, prev), es[|es| - 1]);
    }
  }

  /** In a polite run the MCU holds the faithful chip's words whenever the console reads ready,
      and without a short erase-all the FPGA does too. */
  lemma CopiesAgree(size: Size, s0: Sys, c0: Chip, es: seq<Event>)
    requires PowerUp(size, s0, c0) && ValidMcu(s0.mcu) && PoliteRun(size, s0, es)
    ensures var s, c := Run(size, s0, es), RunChip(size, c0, s0, es);
            s.fpga.Ready() ==> s.mcu.data == c.words && (NoEraseAll(size, s0, es) ==> s.fpga.memory == c.words)
  {
    PoliteIsPatient(size, s0, es);
    ReadyMeansMirrored(size, s0, c0, es);
    PowerUpInv(size, s0, c0);
    StartsEqual(size, s0, c0);
    hide Inv, PowerUp, Run, RunChip, NoEraseAll;
    ChipsCoincide(size, s0, c0, es);
  }

  predicate NoneStarted(size: Size, s: Sys, es: seq<Event>)
    requires ValidMcu(s.mcu)
  {
    es == [] ||
    (NoneStarted(size, s, es[..|es| - 1]) &&
     Started(size, Run(size, s, es[..|es| - 1]), es[|es| - 1]).None?)
  }

  lemma ChipStepRests(size: Size, c: Chip, s: Sys, e: Event)
    requires c.writeEnabled == !s.fpga.writeProtect && Started(size, s, e).None?
    ensures var d := ChipStep(size, c, s, e); d.mcuWords == c.mcuWords && d.fpgaWords == c.fpgaWords
  {
    hide Op, Address, Fill, Obey;
  }

  lemma {:induction false} ChipRests(size: Size, s: Sys, c: Chip, es: seq<Event>)
    requires ValidMcu(s.mcu) && Inv(size, s, c) && PatientRun(size, s, es) && NoneStarted(size, s, es)
    ensures RunChip(size, c, s, es).mcuWords == c.mcuWords && RunChip(size, c, s, es).fpgaWords == c.fpgaWords
  {
    hide Inv, Step, ChipStep, Started, Patient;
    if es != [] {
      var prev := es[..|es| - 1];
      ChipRests(size, s, c, prev);
      RunOk(size, s, c, prev);
      LatchesAgree(size, Run(size, s, prev), RunChip(size, c, s, prev));
      ChipStepRests(size, RunChip(size, c, s, prev), Run(size, s, prev), es[|es| - 1]);
    }
  }

  /** The event starts a command, and it will be forwarded. */
  predicate Sends(size: Size, s: Sys, e: Event) {
    Started(size, s, e).Some? && IsForwarded(Started(size, s, e).value, s.fpga.counter)
  }

  /** What one command, on its own, leaves in both copies. */
  lemma CommandLeaves(size: Size, s: Sys, c: Chip, start: Event, es: seq<Event>)
    requires ValidMcu(s.mcu) && Inv(size, s, c) && Started(size, s, start).Some?
    requires var s1 := Step(size, s, start); PatientRun(size, s1, es) && NoneStarted(size, s1, es)
    requires Run(size, Step(size, s, start), es).fpga.Ready()
    ensures var t := Run(size, Step(size, s, start), es);
            var cmd := Started(size, s, start).value;
            && t.mcu.data == (if Sends(size, s, start)
                              then Obey(s.mcu.data, size, cmd, s.fpga.command, s.fpga.dataOut, WordCount(size))
                              else s.mcu.data)
            && t.fpga.memory == Obey(s.fpga.memory, size, cmd, s.fpga.command, s.fpga.dataOut,
                                     EraseReach(size, s.fpga.counter))
  {
    var s1, c1 := Step(size, s, start), ChipStep(size, c, s, start);
    StartedIsReady(size, s, start);
    LatchesAgree(size, s, c);
    StartChip(size, s, c, start);
    ReadyCopies(size, s, c);
    StepOk(size, s, c, start);
    hide Step, Inv, ChipStep, Started, Obey, Run, RunChip, IsForwarded;
    RunOk(size, s1, c1, es);
    ChipRests(size, s1, c1, es);
    ReadyCopies(size, Run(size, s1, es), RunChip(size, c1, s1, es));
  }

  lemma StartedIsReady(size: Size, s: Sys, start: Event)
    requires Started(size, s, start).Some?
    ensures s.fpga.Ready() && Patient(s, start)
  {
  }

  lemma ReadyCopies(size: Size, s: Sys, c: Chip)
    requires Inv(size, s, c) && s.fpga.Ready()
    ensures s.mcu.data == c.mcuWords && s.fpga.memory == c.fpgaWords
  {
  }

  /** What erase-all does to copies that agree.  Started with the counter clear, it breaks the
      mirror: they end up different in exactly the words from 0x12 on that were not erased
      already.  Started in the same clock period as ready, it erases all of both. */
  lemma EraseAllDivergesIff(size: Size, s: Sys, c: Chip, start: Event, es: seq<Event>)
    requires ValidMcu(s.mcu) && Inv(size, s, c) && s.fpga.memory == s.mcu.data
    requires Started(size, s, start) == Some(CmdEraseAll)
    requires var s1 := Step(size, s, start); PatientRun(size, s1, es) && NoneStarted(size, s1, es)
    requires Run(size, Step(size, s, start), es).fpga.Ready()
    ensures var t := Run(size, Step(size, s, start), es);
            forall i :: 0 <= i < 1024 ==>
              (t.fpga.memory[i] != t.mcu.data[i] <==>
               s.fpga.counter == 0 && FPGA_ERASE_ALL <= i < WordCount(size) && s.mcu.data[i] != 0xFFFF)
  {
    CommandLeaves(size, s, c, start, es);
    hide Step, Inv, Started, Run, PatientRun, NoneStarted;
  }

  /** A read issued when ready latches the word in the FPGA's copy, or all ones if the start bit is
      missing; in a polite run without a short erase-all that is the chip's word. */
  lemma ReadReturnsWord(size: Size, s0: Sys, c0: Chip, es: seq<Event>, data: u8)
    requires PowerUp(size, s0, c0) && ValidMcu(s0.mcu) && PatientRun(size, s0, es)
    requires Run(size, s0, es).fpga.Ready() && data / 16 == 1
    requires Op(size, Run(size, s0, es).fpga.command) / 4 % 4 == 2
    ensures var s, c := Run(size, s0, es), RunChip(size, c0, s0, es);
            var f := Step(size, s, Bus(SelCtrl, data)).fpga;
            && f.SerialData() == (if Op(size, f.command) < 16 then 0xFFFF else c.fpgaWords[Address(size, f.command)])
            && (PoliteRun(size, s0, es) && NoEraseAll(size, s0, es) ==> c.fpgaWords == c.words)
  {
    PowerUpInv(size, s0, c0);
    RunOk(size, s0, c0, es);
    ReadyCopies(size, Run(size, s0, es), RunChip(size, c0, s0, es));
    hide Inv, PowerUp, Run, RunChip, PatientRun, PoliteRun, NoEraseAll;
    if PoliteRun(size, s0, es) && NoEraseAll(size, s0, es) {
      CopiesAgree(size, s0, c0, es);
    }
    ReadLatches(size, Run(size, s0, es), data);
  }

  lemma ReadLatches(size: Size, s: Sys, data: u8)
    requires ValidMcu(s.mcu) && s.fpga.Ready() && data / 16 == 1 && Op(size, s.fpga.command) / 4 % 4 == 2
    ensures var f := Step(size, s, Bus(SelCtrl, data)).fpga;
            && f.command == s.fpga.command
            && f.SerialData() == if Op(size, f.command) < 16 then 0xFFFF else s.fpga.memory[Address(size, f.command)]
  {
    hide Address;
  }

  // ----- every forwarded command releases the busy line once -----

  function SentCount(size: Size, s: Sys, es: seq<Event>): nat
    requires ValidMcu(s.mcu)
  {
    if es == [] then 0 else
      var prev := es[..|es| - 1];
      SentCount(size, s, prev) + (if Sends(size, Run(size, s, prev), es[|es| - 1]) then 1 else 0)
  }

  predicate Releases(s: Sys, e: Event)
    requires ValidMcu(s.mcu)
  {
    e.McuIrq? && s.fifo != [] && ExchWord(s.mcu, s.fifo[0]).1
  }

  function ReleaseCount(size: Size, s: Sys, es: seq<Event>): nat
    requires ValidMcu(s.mcu)
  {
    if es == [] then 0 else
      var prev := es[..|es| - 1];
      ReleaseCount(size, s, prev) + (if Releases(Run(size, s, prev), es[|es| - 1]) then 1 else 0)
  }

  /** A command is under way whose array update the MCU has not done. */
  predicate Owed(s: Sys) {
    !s.fpga.Ready() && Taken(s.fpga, s.fifo) < |CommandWords(s.fpga)|
  }

  lemma ReleaseStep(size: Size, s: Sys, c: Chip, e: Event)
    requires ValidMcu(s.mcu) && Inv(size, s, c) && Patient(s, e)
    ensures (if Owed(Step(size, s, e)) then 1 else 0) + (if Releases(s, e) then 1 else 0) ==
            (if Owed(s) then 1 else 0) + (if Sends(size, s, e) then 1 else 0)
    ensures Releases(s, e) ==> Step(size, s, e).mcu.data == c.mcuWords
  {
    match e
    case Bus(_, _) => BusOwes(size, s, c, e);
    case SClk(seen) => ClockOwes(size, s, c, seen);
    case McuIrq => if s.fifo != [] { IrqOwes(size, s, c); }
  }

  /** A command just started is still to be sent, unless it is lost, when it has been "sent". */
  lemma StartOwes(size: Size, s: Sys, c: Chip, e: Event)
    requires ValidMcu(s.mcu) && Inv(size, s, c) && Started(size, s, e).Some?
    ensures !Owed(s)
    ensures var g := Step(size, s, e).fpga;
            && BitsOut(g) == (if Sends(size, s, e) then 0 else |WireBits(g)|)
            && Owed(Step(size, s, e)) == Sends(size, s, e)
  {
    StartRegisters(size, s, c, e);
    var g := Step(size, s, e).fpga;
    WireLength(g);
    if g.counter != 0 {
      SmallerSize(size, g.counter);
    }
    hide ToBits, Step, Started, Inv, ReadyOk, WireBits;
  }

  lemma BusOwes(size: Size, s: Sys, c: Chip, e: Event)
    requires ValidMcu(s.mcu) && Inv(size, s, c) && e.Bus? && Patient(s, e)
    ensures Started(size, s, e).Some? ==> !Owed(s) && Owed(Step(size, s, e)) == Sends(size, s, e)
    ensures Started(size, s, e).None? ==> Owed(Step(size, s, e)) == Owed(s)
  {
    hide ToBits, Obey;
    var f := s.fpga;
    var g := Step(size, s, e).fpga;
    if Started(size, s, e).Some? {
      StartOwes(size, s, c, e);
    } else if f.Ready() {
      NoStartFrame(f, size, e.reg, e.data);
    } else if e.reg.SelCtrl? {
      assert g == ReadLatch(f, size, e.data);
      LatchFrame(f, size, e.data);
      assert BitsOut(g) == BitsOut(f) && |CommandWords(g)| == |CommandWords(f)|;
    }
  }

  lemma ClockOwes(size: Size, s: Sys, c: Chip, seen: bool)
    requires ValidMcu(s.mcu) && Inv(size, s, c)
    ensures Owed(Step(size, s, SClk(seen))) == Owed(s)
  {
    if s.fpga.InternalBusy() {
      if Lost(s.fpga, c) {
        LostOwes(size, s, c, seen);
      } else {
        WritingOwes(size, s, c, seen);
      }
    } else {
      RestsHigh(size, s, c);
      RestingEdge(s.fpga, size, seen && s.released > 0);
      hide SClkEdge, Inv, ToBits;
      RestingOwes(size, s, seen);
    }
  }

  lemma RestingOwes(size: Size, s: Sys, seen: bool)
    requires ValidMcu(s.mcu) && !s.fpga.InternalBusy() && !s.fpga.clkEnable
    requires var g := SClkEdge(s.fpga, size, seen && s.released > 0);
             && !g.InternalBusy() && BitsOut(g) == BitsOut(s.fpga) && CommandWords(g) == CommandWords(s.fpga)
             && g.externalBusy == (s.fpga.externalBusy && !(seen && s.released > 0))
    requires s.released > 0 ==> !Owed(s)
    ensures Owed(Step(size, s, SClk(seen))) == Owed(s)
  {
    hide SClkEdge, BitsOut, CommandWords;
  }

  lemma LostOwes(size: Size, s: Sys, c: Chip, seen: bool)
    requires ValidMcu(s.mcu) && Inv(size, s, c) && s.fpga.InternalBusy() && Lost(s.fpga, c)
    ensures !Owed(s) && !Owed(Step(size, s, SClk(seen)))
  {
    SmallerSize(size, c.first);
    LostRegisters(s.fpga, size, c.first);
    WireLength(s.fpga);
    WireLength(Step(size, s, SClk(seen)).fpga);
    hide SClkEdge, ToBits, LostWritten, Obey, Receive;
  }

  lemma WritingOwes(size: Size, s: Sys, c: Chip, seen: bool)
    requires ValidMcu(s.mcu) && Inv(size, s, c) && s.fpga.InternalBusy() && !Lost(s.fpga, c)
    ensures Owed(Step(size, s, SClk(seen))) == Owed(s)
  {
    hide ToBits, Word, Receive;
    var s' := Step(size, s, SClk(seen));
    BitsOutNext(s.fpga, size, seen && s.released > 0);
    if s.fpga.clkEnable {
      SpiOutBit(s.fpga, BitsOut(s.fpga));
      WireNext(s.fpga, s'.fpga, s.bits, s.fifo);
    }
    assert Taken(s'.fpga, s'.fifo) == Taken(s.fpga, s.fifo);
  }

  lemma IrqOwes(size: Size, s: Sys, c: Chip)
    requires ValidMcu(s.mcu) && Inv(size, s, c) && s.fifo != []
    ensures Owed(s) && (Releases(s, McuIrq) <==> !Owed(Step(size, s, McuIrq)))
    ensures Releases(s, McuIrq) ==> Step(size, s, McuIrq).mcu.data == c.mcuWords
  {
    var f := s.fpga;
    var taken := Taken(f, s.fifo);
    assert s.fifo[0] == CommandWords(f)[taken];
    if taken == 0 {
      CommandWord(size, s.mcu, f.cmd, f.command, f.dataOut);
    } else {
      DataWord(size, s.mcu, f.cmd, f.command, f.dataOut);
    }
  }

  /** Over any patient run, releases and forwarded commands pair off, the one under way excepted. */
  lemma {:induction false} OneReleasePerCommand(size: Size, s: Sys, c: Chip, es: seq<Event>)
    requires ValidMcu(s.mcu) && Inv(size, s, c) && s.fpga.Ready() && PatientRun(size, s, es)
    ensures SentCount(size, s, es) == ReleaseCount(size, s, es) + (if Owed(Run(size, s, es)) then 1 else 0)
  {
    hide Inv, Step, ChipStep, Patient, Sends, Releases;
    if es == [] {
      hide Taken, CommandWords;
    } else {
      var prev := es[..|es| - 1];
      OneReleasePerCommand(size, s, c, prev);
      RunOk(size, s, c, prev);
      ReleaseStep(size, Run(size, s, prev), RunChip(size, c, s, prev), es[|es| - 1]);
    }
  }
}
