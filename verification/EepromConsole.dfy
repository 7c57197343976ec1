// The emulated EEPROM as the console sees it: bytes written to registers, one control
// byte, and what it reads or finds stored afterwards, bit field by bit field.
// fpga/rtl/eeprom.sv

module EepromConsole {
  import opened Words
  import opened EepromChip
  import opened EepromFpga
  import opened EepromMcu
  import opened EepromMirror
  import opened EepromLine

  /** The last byte written to a register. */
  function LastByte(es: seq<Event>, reg: Register): Option<u8>
    decreases |es|
  {
    if es == [] then None
    else
      var e := es[|es| - 1];
      if e.Bus? && e.reg == reg then Some(e.data) else LastByte(es[..|es| - 1], reg)
  }

  function ByteOr(b: Option<u8>, was: nat): nat {
    if b.Some? then b.value else was
  }

  lemma RegisterStep(size: Size, s: Sys, e: Event)
    requires ValidMcu(s.mcu)
    ensures var f, g := s.fpga, Step(size, s, e).fpga;
            && g.command % 256 == (if e.Bus? && e.reg.SelComLo? then e.data else f.command % 256)
            && g.command / 256 == (if e.Bus? && e.reg.SelComHi? then e.data else f.command / 256)
            && g.dataOut % 256 == (if e.Bus? && e.reg.SelDataLo? then e.data else f.dataOut % 256)
            && g.dataOut / 256 == (if e.Bus? && e.reg.SelDataHi? then e.data else f.dataOut / 256)
  {
    if e.Bus? && e.reg.SelCtrl? {
      CtrlKeepsRegisters(s.fpga, size, e.data);
    }
    hide CtrlWrite, SClkEdge, ExchWord;
    if e.SClk? {
      ClockKeepsRegisters(s.fpga, size, e.seen && s.released > 0);
    }
  }

  lemma CtrlKeepsRegisters(f: Fpga, size: Size, data: u8)
    ensures var g := CtrlWrite(f, size, data); g.command == f.command && g.dataOut == f.dataOut
  {
    LatchFrame(f, size, data);
    hide ReadLatch, Op;
  }

  lemma ClockKeepsRegisters(f: Fpga, size: Size, falling: bool)
    ensures var g := SClkEdge(f, size, falling); g.command == f.command && g.dataOut == f.dataOut
  {
    hide WriteAddr, WriteData, CounterAtLast;
  }

  /** Main result: whatever else happens in whichever order, command and data word consist of the
      last bytes written to their halves. */
  lemma {:induction false} RegistersHold(size: Size, s: Sys, es: seq<Event>)
    requires ValidMcu(s.mcu)
    ensures var f := Run(size, s, es).fpga;
            && f.command == 256 * ByteOr(LastByte(es, SelComHi), s.fpga.command / 256)
                            + ByteOr(LastByte(es, SelComLo), s.fpga.command % 256)
            && f.dataOut == 256 * ByteOr(LastByte(es, SelDataHi), s.fpga.dataOut / 256)
                            + ByteOr(LastByte(es, SelDataLo), s.fpga.dataOut % 256)
  {
    hide Step;
    if es != [] {
      RegistersHold(size, s, es[..|es| - 1]);
      RegisterStep(size, Run(size, s, es[..|es| - 1]), es[|es| - 1]);
    }
  }

  // ----- the command word as bit fields -----

  /** The words of each size. */
  function Capacity(size: Size): nat {
    match size
    case Size128B => 64
    case Size1KB => 512
    case Size2KB => 1024
  }

  /** The field of two opcode bits starts above the address: six bits on the smallest chip, ten on
      the others.  The start bit is above it, the bits that tell short commands apart below. */
  function Unit(size: Size): nat {
    if size.Size128B? then 64 else 1024
  }

  predicate HasStart(size: Size, word: u16) {
    word / (4 * Unit(size)) % 2 == 1
  }

  function Opcode(size: Size, word: u16): nat {
    word / Unit(size) % 4
  }

  function Short(size: Size, word: u16): nat {
    word / (Unit(size) / 4) % 4
  }

  /** The write or erase that control byte and command word select: 2 in the upper half of the
      control byte writes, 4 erases; opcode 0 with a 1 or 2 below it means all words. */
  function Selected(size: Size, word: u16, ctrl: u8): Option<Cmd> {
    if !HasStart(size, word) then None
    else if ctrl / 16 == 2 && Opcode(size, word) == 1 then Some(CmdWrite)
    else if ctrl / 16 == 2 && Opcode(size, word) == 0 && Short(size, word) == 1 then Some(CmdWriteAll)
    else if ctrl / 16 == 4 && Opcode(size, word) == 3 then Some(CmdErase)
    else if ctrl / 16 == 4 && Opcode(size, word) == 0 && Short(size, word) == 2 then Some(CmdEraseAll)
    else None
  }

  lemma OpFields(size: Size, word: u16)
    ensures var op := Op(size, word);
            op < 32 && op / 16 == word / (4 * Unit(size)) % 2 && op / 4 % 4 == Opcode(size, word)
            && op % 4 == Short(size, word)
  {
    if size.Size128B? {
      var q := word / 16;
      assert q / 4 == word / 64 && q / 16 == word / 256;
      FieldsOf(q);
    } else {
      var q := word / 256;
      assert q / 4 == word / 1024 && q / 16 == word / 4096;
      FieldsOf(q);
    }
  }

  lemma FieldsOf(q: nat)
    ensures q % 32 / 16 == q / 16 % 2 && q % 32 / 4 % 4 == q / 4 % 4 && q % 32 % 4 == q % 4
  {
    var a, r := q / 32, q % 32;
    assert q == 32 * a + r;
    assert q / 16 == 2 * a + r / 16 && q / 4 == 8 * a + r / 4;
    assert (2 * a + r / 16) % 2 == r / 16;
    assert (8 * a + r / 4) % 4 == r / 4 % 4;
    assert (32 * a + r) % 4 == r % 4;
  }

  /** What a control write starts. */
  lemma StartedIs(size: Size, s: Sys, ctrl: u8)
    ensures Started(size, s, Bus(SelCtrl, ctrl)) ==
            if s.fpga.Ready() && !s.fpga.writeProtect then Selected(size, s.fpga.command, ctrl) else None
  {
    OpFields(size, s.fpga.command);
    OpParts(Op(size, s.fpga.command));
    hide Op, Opcode, Short, Unit;
    assert HasStart(size, s.fpga.command) == (Op(size, s.fpga.command) / 16 == 1);
  }

  lemma OpParts(op: nat)
    requires op < 32
    ensures op / 4 == 4 * (op / 16) + op / 4 % 4
    ensures op == 16 * (op / 16) + 4 * (op / 4 % 4) + op % 4
    ensures op / 16 < 2
  {
  }

  // ----- write-enable latch and done bit -----

  /** Are writes enabled after the run?  Control 4 with opcode 0 enables them with 3 below, and
      disables them with 0. */
  function Enabled(size: Size, s: Sys, es: seq<Event>): bool
    requires ValidMcu(s.mcu)
  {
    if es == [] then !s.fpga.writeProtect
    else
      var prev, e := es[..|es| - 1], es[|es| - 1];
      var f := Run(size, s, prev).fpga;
      if e.Bus? && e.reg.SelCtrl? && f.Ready() && e.data / 16 == 4 && HasStart(size, f.command)
         && Opcode(size, f.command) == 0 && Short(size, f.command) % 3 == 0
      then Short(size, f.command) == 3
      else Enabled(size, s, prev)
  }

  /** Is the done bit up after the run?  A read raises it, a write or erase request clears it. */
  function Done(size: Size, s: Sys, es: seq<Event>): bool
    requires ValidMcu(s.mcu)
  {
    if es == [] then s.fpga.buggedDone
    else
      var prev, e := es[..|es| - 1], es[|es| - 1];
      var f := Run(size, s, prev).fpga;
      if !(e.Bus? && e.reg.SelCtrl? && f.Ready()) then Done(size, s, prev)
      else if e.data / 16 == 1 && Opcode(size, f.command) == 2 then true
      else if Selected(size, f.command, e.data).Some? then false
      else Done(size, s, prev)
  }

  /** The latch after a control write at ready, by opcode. */
  predicate ProtectedBy(op: nat, ctrl: u8, was: bool) {
    if ctrl / 16 == 4 && op == 16 then true else if ctrl / 16 == 4 && op == 19 then false else was
  }

  predicate DoneBy(op: nat, ctrl: u8, was: bool) {
    if ctrl / 16 == 1 && op / 4 % 4 == 2 then true else if Requested(op, ctrl).Some? then false else was
  }

  predicate ControlsAtReady(f: Fpga, e: Event) {
    e.Bus? && e.reg.SelCtrl? && f.Ready()
  }

  lemma LatchStep(size: Size, s: Sys, e: Event)
    requires ValidMcu(s.mcu)
    ensures var f, g, op := s.fpga, Step(size, s, e).fpga, Op(size, s.fpga.command);
            && g.writeProtect ==
                 (if ControlsAtReady(f, e) then ProtectedBy(op, e.data, f.writeProtect) else f.writeProtect)
            && g.buggedDone == (if ControlsAtReady(f, e) then DoneBy(op, e.data, f.buggedDone) else f.buggedDone)
  {
    FpgaStep(size, s, e);
    hide Step, Op, SClkEdge, NWEEdge, ProtectedBy, DoneBy, ToBits;
    match e
    case Bus(reg, data) => BusLatches(s.fpga, size, reg, data);
    case SClk(seen) => ClockKeepsLatches(s.fpga, size, seen && s.released > 0);
    case McuIrq =>
  }

  lemma FpgaStep(size: Size, s: Sys, e: Event)
    requires ValidMcu(s.mcu)
    ensures Step(size, s, e).fpga ==
            match e
            case Bus(reg, data) => NWEEdge(s.fpga, size, reg, data)
            case SClk(seen) => SClkEdge(s.fpga, size, seen && s.released > 0)
            case McuIrq => s.fpga
  {
    hide NWEEdge, SClkEdge, SpiOut;
  }

  lemma BusLatches(f: Fpga, size: Size, reg: Register, data: u8)
    ensures var g, op := NWEEdge(f, size, reg, data), Op(size, f.command);
            var c := reg.SelCtrl? && f.Ready();
            && g.writeProtect == (if c then ProtectedBy(op, data, f.writeProtect) else f.writeProtect)
            && g.buggedDone == (if c then DoneBy(op, data, f.buggedDone) else f.buggedDone)
  {
    if reg.SelCtrl? {
      CtrlLatches(f, size, data);
      NWEIsCtrl(f, size, data);
    } else {
      OthersKeepLatches(f, size, reg, data);
    }
    hide NWEEdge, Op, CtrlWrite, ProtectedBy, DoneBy;
  }

  lemma NWEIsCtrl(f: Fpga, size: Size, data: u8)
    ensures NWEEdge(f, size, SelCtrl, data) == CtrlWrite(f, size, data)
  {
    hide CtrlWrite;
  }

  lemma OthersKeepLatches(f: Fpga, size: Size, reg: Register, data: u8)
    requires !reg.SelCtrl?
    ensures var g := NWEEdge(f, size, reg, data); g.writeProtect == f.writeProtect && g.buggedDone == f.buggedDone
  {
    match reg
    case SelComLo => WithCommand(f, f.command / 256 * 256 + data);
    case SelComHi => WithCommand(f, data * 256 + f.command % 256);
    case SelDataLo => WithData(f, f.dataOut / 256 * 256 + data);
    case SelDataHi => WithData(f, data * 256 + f.dataOut % 256);
    case SelNone =>
  }

  lemma WithCommand(f: Fpga, w: u16)
    ensures var g := f.(command := w); g.writeProtect == f.writeProtect && g.buggedDone == f.buggedDone
  {
  }

  lemma WithData(f: Fpga, w: u16)
    ensures var g := f.(dataOut := w); g.writeProtect == f.writeProtect && g.buggedDone == f.buggedDone
  {
  }

  lemma CtrlLatches(f: Fpga, size: Size, data: u8)
    ensures var g, op := CtrlWrite(f, size, data), Op(size, f.command);
            && g.writeProtect == (if f.Ready() then ProtectedBy(op, data, f.writeProtect) else f.writeProtect)
            && g.buggedDone == (if f.Ready() then DoneBy(op, data, f.buggedDone) else f.buggedDone)
  {
    hide Op, Address;
  }

  lemma ClockKeepsLatches(f: Fpga, size: Size, falling: bool)
    ensures var g := SClkEdge(f, size, falling); g.writeProtect == f.writeProtect && g.buggedDone == f.buggedDone
  {
    hide WriteAddr, WriteData, CounterAtLast;
  }

  lemma {:induction false} LatchesHold(size: Size, s: Sys, es: seq<Event>)
    requires ValidMcu(s.mcu)
    ensures var f := Run(size, s, es).fpga;
            && f.writeProtect == !Enabled(size, s, es)
            && f.buggedDone == Done(size, s, es)
  {
    hide Step, Op, Opcode, Short, Unit, Requested;
    if es != [] {
      var prev, e := es[..|es| - 1], es[|es| - 1];
      LatchesHold(size, s, prev);
      var t := Run(size, s, prev);
      LatchStep(size, t, e);
      OpFields(size, t.fpga.command);
      OpParts(Op(size, t.fpga.command));
      assert HasStart(size, t.fpga.command) == (Op(size, t.fpga.command) / 16 == 1);
      if e.Bus? {
        RequestIsSelected(size, t.fpga.command, e.data);
      }
    }
  }

  lemma RequestIsSelected(size: Size, word: u16, ctrl: u8)
    ensures Requested(Op(size, word), ctrl) == Selected(size, word, ctrl)
  {
    OpFields(size, word);
    OpParts(Op(size, word));
    hide Op, Opcode, Short, Unit;
    assert HasStart(size, word) == (Op(size, word) / 16 == 1);
  }

  // ----- end to end -----

  /** Main result: after any patient run that last wrote `l` and `h` to the command register, a read
      request at ready returns the block RAM's word at that address, or all ones if the start
      bit is missing. */
  lemma ConsoleReads(size: Size, s0: Sys, c0: Chip, es: seq<Event>, l: u8, h: u8, ctrl: u8)
    requires PowerUp(size, s0, c0) && ValidMcu(s0.mcu) && PatientRun(size, s0, es)
    requires LastByte(es, SelComLo) == Some(l) && LastByte(es, SelComHi) == Some(h)
    requires Run(size, s0, es).fpga.Ready() && ctrl / 16 == 1 && Opcode(size, 256 * h + l) == 2
    ensures var f := Step(size, Run(size, s0, es), Bus(SelCtrl, ctrl)).fpga;
            var c := RunChip(size, c0, s0, es);
            && f.SerialData() ==
                 (if HasStart(size, 256 * h + l)
                  then Run(size, s0, es).fpga.memory[(256 * h + l) % Capacity(size)] else 0xFFFF)
            && f.buggedDone
            && (PoliteRun(size, s0, es) && NoEraseAll(size, s0, es) && HasStart(size, 256 * h + l) ==>
                  f.SerialData() == c.words[(256 * h + l) % Capacity(size)])
  {
    hide PowerUp, Run, RunChip, PatientRun, PoliteRun, NoEraseAll, Step, Opcode, HasStart, LastByte;
    RegistersHold(size, s0, es);
    ReadsWord(size, Run(size, s0, es), ctrl, 256 * h + l);
    if PoliteRun(size, s0, es) && NoEraseAll(size, s0, es) {
      CopiesAgree(size, s0, c0, es);
    }
  }

  lemma ReadsWord(size: Size, s: Sys, ctrl: u8, word: u16)
    requires ValidMcu(s.mcu) && s.fpga.Ready() && s.fpga.command == word
    requires ctrl / 16 == 1 && Opcode(size, word) == 2
    ensures var f := Step(size, s, Bus(SelCtrl, ctrl)).fpga;
            && f.SerialData() == (if HasStart(size, word) then s.fpga.memory[word % Capacity(size)] else 0xFFFF)
            && f.buggedDone
  {
    OpFields(size, word);
    OpParts(Op(size, word));
    LatchStep(size, s, Bus(SelCtrl, ctrl));
    ReadLatches(size, s, ctrl);
    hide Step, Op, Opcode, Unit, Short;
    assert HasStart(size, word) == (Op(size, word) / 16 == 1);
  }

  /** What one word becomes by a command on a chip that obeys it, an erase-all reaching `reach`. */
  function WordAfter(size: Size, cmd: Cmd, word: u16, data: u16, reach: nat, i: nat, was: u16): u16 {
    match cmd
    case CmdWrite => if i == word % Capacity(size) then data else was
    case CmdErase => if i == word % Capacity(size) then 0xFFFF else was
    case CmdWriteAll => if i < Capacity(size) then data else was
    case CmdEraseAll => if i < reach then 0xFFFF else was
  }

  /** Main result: with writes enabled and the counter clear, the command that the last bytes written
      and the control byte select is carried out, word by word, in both copies by the next
      ready; an erase-all reaches all words of the MCU's copy and eighteen of the FPGA's. */
  lemma ConsoleCommandObeyed(size: Size, s0: Sys, c0: Chip, es: seq<Event>, fs: seq<Event>,
                             l: u8, h: u8, dl: u8, dh: u8, ctrl: u8, cmd: Cmd)
    requires PowerUp(size, s0, c0) && ValidMcu(s0.mcu) && PatientRun(size, s0, es)
    requires LastByte(es, SelComLo) == Some(l) && LastByte(es, SelComHi) == Some(h)
    requires LastByte(es, SelDataLo) == Some(dl) && LastByte(es, SelDataHi) == Some(dh)
    requires Run(size, s0, es).fpga.Ready() && Run(size, s0, es).fpga.counter == 0 && Enabled(size, s0, es)
    requires Selected(size, 256 * h + l, ctrl) == Some(cmd)
    requires var s1 := Step(size, Run(size, s0, es), Bus(SelCtrl, ctrl));
             PatientRun(size, s1, fs) && NoneStarted(size, s1, fs) && Run(size, s1, fs).fpga.Ready()
    ensures var s := Run(size, s0, es);
            var t := Run(size, Step(size, s, Bus(SelCtrl, ctrl)), fs);
            forall i :: 0 <= i < 1024 ==>
              && t.mcu.data[i] == WordAfter(size, cmd, 256 * h + l, 256 * dh + dl, Capacity(size), i, s.mcu.data[i])
              && t.fpga.memory[i] == WordAfter(size, cmd, 256 * h + l, 256 * dh + dl, 18, i, s.fpga.memory[i])
  {
    hide PowerUp, Run, RunChip, PatientRun, NoneStarted, Step, Inv, Started, Selected, Enabled, LastByte, WordAfter,
         Capacity;
    ConsoleCommandStarts(size, s0, c0, es, l, h, dl, dh, ctrl, cmd);
    CommandLeavesWords(size, Run(size, s0, es), RunChip(size, c0, s0, es), Bus(SelCtrl, ctrl), fs, cmd);
  }

  lemma ConsoleCommandStarts(size: Size, s0: Sys, c0: Chip, es: seq<Event>, l: u8, h: u8, dl: u8, dh: u8,
                             ctrl: u8, cmd: Cmd)
    requires PowerUp(size, s0, c0) && ValidMcu(s0.mcu) && PatientRun(size, s0, es)
    requires LastByte(es, SelComLo) == Some(l) && LastByte(es, SelComHi) == Some(h)
    requires LastByte(es, SelDataLo) == Some(dl) && LastByte(es, SelDataHi) == Some(dh)
    requires Run(size, s0, es).fpga.Ready() && Enabled(size, s0, es)
    requires Selected(size, 256 * h + l, ctrl) == Some(cmd)
    ensures var s := Run(size, s0, es);
            && Inv(size, s, RunChip(size, c0, s0, es)) && Started(size, s, Bus(SelCtrl, ctrl)) == Some(cmd)
            && s.fpga.command == 256 * h + l && s.fpga.dataOut == 256 * dh + dl
  {
    hide PowerUp, Run, RunChip, PatientRun, Step, Inv, Started, Selected, Enabled, LastByte;
    PowerUpInv(size, s0, c0);
    RunOk(size, s0, c0, es);
    RegistersHold(size, s0, es);
    LatchesHold(size, s0, es);
    StartedIs(size, Run(size, s0, es), ctrl);
  }

  lemma CommandLeavesWords(size: Size, s: Sys, c: Chip, e: Event, fs: seq<Event>, cmd: Cmd)
    requires ValidMcu(s.mcu) && Inv(size, s, c) && Started(size, s, e) == Some(cmd) && s.fpga.counter == 0
    requires var s1 := Step(size, s, e); PatientRun(size, s1, fs) && NoneStarted(size, s1, fs)
    requires Run(size, Step(size, s, e), fs).fpga.Ready()
    ensures var t := Run(size, Step(size, s, e), fs);
            forall i :: 0 <= i < 1024 ==>
              && t.mcu.data[i] == WordAfter(size, cmd, s.fpga.command, s.fpga.dataOut, Capacity(size), i, s.mcu.data[i])
              && t.fpga.memory[i] == WordAfter(size, cmd, s.fpga.command, s.fpga.dataOut, 18, i, s.fpga.memory[i])
  {
    SendsAtZero(size, s, e);
    hide Run, PatientRun, NoneStarted, Step, Inv, Started, Obey, WordAfter;
    CommandLeaves(size, s, c, e, fs);
    ObeysWordByWord(s.mcu.data, size, cmd, s.fpga.command, s.fpga.dataOut, Capacity(size));
    ObeysWordByWord(s.fpga.memory, size, cmd, s.fpga.command, s.fpga.dataOut, 18);
  }

  lemma ObeysWordByWord(w: Image, size: Size, cmd: Cmd, word: u16, data: u16, reach: nat)
    requires reach <= 1024
    ensures forall i :: 0 <= i < 1024 ==>
              Obey(w, size, cmd, word, data, reach)[i] == WordAfter(size, cmd, word, data, reach, i, w[i])
  {
  }

  lemma SendsAtZero(size: Size, s: Sys, e: Event)
    requires Started(size, s, e).Some? && s.fpga.counter == 0
    ensures Sends(size, s, e)
  {
  }

  /** With writes disabled, or without a command selected, a control write changes no word. */
  lemma NothingStarts(size: Size, s0: Sys, es: seq<Event>, ctrl: u8)
    requires ValidMcu(s0.mcu)
    requires !Enabled(size, s0, es) || Selected(size, Run(size, s0, es).fpga.command, ctrl).None?
    ensures Started(size, Run(size, s0, es), Bus(SelCtrl, ctrl)).None?
  {
    LatchesHold(size, s0, es);
    StartedIs(size, Run(size, s0, es), ctrl);
  }
}
