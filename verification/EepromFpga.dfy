// The FPGA side: command decode, write counter, block-RAM update and serialiser.
// fpga/rtl/eeprom.sv

module EepromFpga {
  import opened Words
  import opened EepromChip

  type u10 = x: int | 0 <= x < 1024

  datatype Fpga = Fpga(
    memory: Image, command: u16, dataOut: u16,
    writeDone: bool, writeStart: bool, cmd: Cmd, counter: u10,
    clkEnable: bool, sel: bool, externalBusy: bool,
    writeProtect: bool, buggedDone: bool, dataIn: u16, invalidRead: bool)
  {
    predicate InternalBusy() { writeDone != writeStart }
    /** SerialCtrl bit 1. */
    predicate Ready() { !InternalBusy() && !externalBusy }
    function SerialData(): u16 { if invalidRead then 0xFFFF else dataIn }
  }

  /** The counter value with which the internal write of `cmd` ends. */
  predicate CounterAtLast(cmd: Cmd, size: Size, counter: u10) {
    match cmd
    case CmdWrite => counter == 0x21
    case CmdEraseAll => counter == 0x11
    case _ => counter % WordCount(size) == WordCount(size) - 1
  }

  function SpiOut(f: Fpga): bool {
    if 0x2 <= f.counter <= 0x11 then ToBits(f.command, 16)[f.counter - 0x2]
    else if 0x12 <= f.counter <= 0x21 then ToBits(f.dataOut, 16)[f.counter - 0x12]
    else false
  }

  function WriteAddr(f: Fpga, size: Size): (a: nat)
    ensures a < 1024
  {
    if f.cmd.CmdEraseAll? || f.cmd.CmdWriteAll? then f.counter % WordCount(size) else Address(size, f.command)
  }

  function WriteData(f: Fpga): u16 {
    if f.cmd.HasData() then f.dataOut else 0xFFFF
  }

  function SClkEdge(f: Fpga, size: Size, mcuReadyFalling: bool): Fpga {
    var busy := f.InternalBusy();
    f.(counter := if busy then (f.counter + 1) % 1024 else 0,
       writeDone := if busy && CounterAtLast(f.cmd, size, f.counter) then f.writeStart else f.writeDone,
       memory := if busy then f.memory[WriteAddr(f, size) := WriteData(f)] else f.memory,
       clkEnable := if f.counter == 0x1 then true
                    else if f.counter == 0x21 || (f.counter == 0x11 && !f.cmd.HasData()) then false
                    else f.clkEnable,
       sel := if f.counter == 0x1 then false
              else if f.counter == 0x22 || (f.counter == 0x12 && !f.cmd.HasData()) then true
              else f.sel,
       externalBusy := if mcuReadyFalling then false
                       else if busy && f.counter == 0 then true
                       else f.externalBusy)
  }

  datatype Register = SelCtrl | SelComLo | SelComHi | SelDataLo | SelDataHi | SelNone

  /** The write or erase that a control write asks for, if it asks for one. */
  function Requested(op: nat, data: u8): Option<Cmd> {
    if data / 16 == 2 then
      (if op / 4 == 5 then Some(CmdWrite) else if op == 17 then Some(CmdWriteAll) else None)
    else if data / 16 == 4 then
      (if op / 4 == 7 then Some(CmdErase) else if op == 18 then Some(CmdEraseAll) else None)
    else None
  }

  predicate DoRead(f: Fpga, size: Size, data: u8) {
    !f.InternalBusy() && data / 16 == 1 && Op(size, f.command) / 4 % 4 == 2
  }

  function ReadLatch(f: Fpga, size: Size, data: u8): Fpga {
    if DoRead(f, size, data)
    then f.(dataIn := f.memory[Address(size, f.command)], invalidRead := Op(size, f.command) < 16)
    else f
  }

  /** The busy toggle moves unless writes are protected. */
  function Begin(f: Fpga, cmd: Cmd): Fpga {
    f.(buggedDone := false, cmd := cmd, writeStart := f.writeStart != !f.writeProtect)
  }

  function CtrlWrite(f: Fpga, size: Size, data: u8): Fpga {
    var op := Op(size, f.command);
    var g := ReadLatch(f, size, data);
    if !f.Ready() then g
    else
      match Requested(op, data)
      case Some(cmd) => Begin(g, cmd)
      case None =>
        if data / 16 == 4 && op == 16 then g.(writeProtect := true)
        else if data / 16 == 4 && op == 19 then g.(writeProtect := false)
        else if DoRead(f, size, data) then g.(buggedDone := true)
        else g
  }

  function NWEEdge(f: Fpga, size: Size, reg: Register, data: u8): Fpga {
    match reg
    case SelCtrl => CtrlWrite(f, size, data)
    case SelComLo => f.(command := f.command / 256 * 256 + data)
    case SelComHi => f.(command := data * 256 + f.command % 256)
    case SelDataLo => f.(dataOut := f.dataOut / 256 * 256 + data)
    case SelDataHi => f.(dataOut := data * 256 + f.dataOut % 256)
    case SelNone => f
  }

  /** The module as hardware state: the block RAM and the registers, updated at each edge from
      the values before it. */
  class Eeprom {
    const size: Size
    const memory: array<u16>
    var command: u16
    var serialDataOut: u16
    var internalWriteDone: bool
    var internalWriteStart: bool
    var cmd: Cmd
    var writeCounter: u10
    var spiClkEnable: bool
    var spiSel: bool
    var externalBusy: bool
    var writeProtect: bool
    var buggedDoneBit: bool
    var serialDataIn: u16
    var invalidSerialRead: bool

    ghost predicate Valid() {
      memory.Length == 1024
    }

    ghost function State(): Fpga
      reads this, memory
      requires Valid()
    {
      Fpga(memory[..], command, serialDataOut, internalWriteDone, internalWriteStart, cmd, writeCounter,
           spiClkEnable, spiSel, externalBusy, writeProtect, buggedDoneBit, serialDataIn, invalidSerialRead)
    }

    constructor (size: Size, memory: array<u16>)
      requires memory.Length == 1024
      ensures Valid() && this.size == size && this.memory == memory
      ensures var f := State();
              && f.memory == memory[..] && f.counter == 0 && f.Ready() && f.writeProtect
              && !f.writeDone && !f.writeStart && !f.clkEnable
    {
      this.size := size;
      this.memory := memory;
      command, serialDataOut, serialDataIn := 0, 0, 0;
      internalWriteDone, internalWriteStart, cmd, writeCounter := false, false, CmdWrite, 0;
      spiClkEnable, spiSel, externalBusy := false, true, false;
      writeProtect, buggedDoneBit, invalidSerialRead := true, false, false;
    }

    method PosedgeSClk(mcuReadyFallingEdge: bool)
      requires Valid()
      modifies this, memory
      ensures Valid() && State() == SClkEdge(old(State()), size, mcuReadyFallingEdge)
    {
      StoreWord();
      ClockSpi();
      Count(mcuReadyFallingEdge);
    }

    method StoreWord()
      requires Valid()
      modifies memory
      ensures memory[..] == if internalWriteDone != internalWriteStart
                            then old(memory[..])[WriteAddr(old(State()), size) := WriteData(old(State()))]
                            else old(memory[..])
    {
      if internalWriteDone != internalWriteStart {
        var bulk := cmd.CmdEraseAll? || cmd.CmdWriteAll?;
        var addr := if bulk then writeCounter % WordCount(size) else Address(size, command);
        memory[addr] := if cmd.CmdErase? || cmd.CmdEraseAll? then 0xFFFF else serialDataOut;
      }
    }

    method ClockSpi()
      requires Valid()
      modifies this`spiClkEnable, this`spiSel
      ensures spiClkEnable == SClkEdge(old(State()), size, false).clkEnable
      ensures spiSel == SClkEdge(old(State()), size, false).sel
    {
      var erase := cmd.CmdErase? || cmd.CmdEraseAll?;
      if writeCounter == 0x1 {
        spiClkEnable, spiSel := true, false;
      } else if writeCounter == 0x11 {
        if erase { spiClkEnable := false; }
      } else if writeCounter == 0x12 {
        if erase { spiSel := true; }
      } else if writeCounter == 0x21 {
        spiClkEnable := false;
      } else if writeCounter == 0x22 {
        spiSel := true;
      }
    }

    method Count(mcuReadyFallingEdge: bool)
      requires Valid()
      modifies this`writeCounter, this`internalWriteDone, this`externalBusy
      ensures writeCounter == SClkEdge(old(State()), size, mcuReadyFallingEdge).counter
      ensures internalWriteDone == SClkEdge(old(State()), size, mcuReadyFallingEdge).writeDone
      ensures externalBusy == SClkEdge(old(State()), size, mcuReadyFallingEdge).externalBusy
    {
      var busy := internalWriteDone != internalWriteStart;
      if busy && writeCounter == 0 { externalBusy := true; }
      if mcuReadyFallingEdge { externalBusy := false; }
      if busy && CounterAtLast(cmd, size, writeCounter) { internalWriteDone := internalWriteStart; }
      writeCounter := if busy then (writeCounter + 1) % 1024 else 0;
    }

    /** A console write to the control register. */
    method WriteControl(data: u8)
      requires Valid()
      modifies this
      ensures Valid() && State() == CtrlWrite(old(State()), size, data)
    {
      var doRead := LatchRead(data);
      if internalWriteDone == internalWriteStart && !externalBusy {
        if doRead { buggedDoneBit := true; }
        if data / 16 == 2 {
          WriteCommand(Op(size, command));
        } else if data / 16 == 4 {
          EraseCommand(Op(size, command));
          ProtectCommand(Op(size, command));
        }
      }
    }

    method LatchRead(data: u8) returns (doRead: bool)
      requires Valid()
      modifies this`serialDataIn, this`invalidSerialRead
      ensures State() == ReadLatch(old(State()), size, data) && doRead == DoRead(old(State()), size, data)
    {
      var op := Op(size, command);
      doRead := internalWriteDone == internalWriteStart && data / 16 == 1 && op / 4 % 4 == 2;
      if doRead {
        serialDataIn := memory[Address(size, command)];
        invalidSerialRead := op < 16;
      }
    }

    method WriteCommand(op: nat)
      requires Valid()
      modifies this`buggedDoneBit, this`cmd, this`internalWriteStart
      ensures State() == if op / 4 == 5 then Begin(old(State()), CmdWrite)
                         else if op == 17 then Begin(old(State()), CmdWriteAll)
                         else old(State())
    {
      if op / 4 == 5 {
        buggedDoneBit, cmd := false, CmdWrite;
        internalWriteStart := internalWriteStart != !writeProtect;
      } else if op == 17 {
        buggedDoneBit, cmd := false, CmdWriteAll;
        internalWriteStart := internalWriteStart != !writeProtect;
      }
    }

    method EraseCommand(op: nat)
      requires Valid()
      modifies this`buggedDoneBit, this`cmd, this`internalWriteStart
      ensures State() == if op / 4 == 7 then Begin(old(State()), CmdErase)
                         else if op == 18 then Begin(old(State()), CmdEraseAll)
                         else old(State())
    {
      if op / 4 == 7 {
        buggedDoneBit, cmd := false, CmdErase;
        internalWriteStart := internalWriteStart != !writeProtect;
      } else if op == 18 {
        buggedDoneBit, cmd := false, CmdEraseAll;
        internalWriteStart := internalWriteStart != !writeProtect;
      }
    }

    method ProtectCommand(op: nat)
      requires Valid()
      modifies this`writeProtect
      ensures State() == old(State()).(writeProtect := if op == 16 then true else if op == 19 then false
                                                       else old(writeProtect))
    {
      if op == 16 {
        writeProtect := true;
      } else if op == 19 {
        writeProtect := false;
      }
    }

    method PosedgeNWE(reg: Register, data: u8)
      requires Valid()
      modifies this
      ensures Valid() && State() == NWEEdge(old(State()), size, reg, data)
    {
      match reg {
        case SelCtrl => WriteControl(data);
        case SelComLo => command := command / 256 * 256 + data;
        case SelComHi => command := data * 256 + command % 256;
        case SelDataLo => serialDataOut := serialDataOut / 256 * 256 + data;
        case SelDataHi => serialDataOut := data * 256 + serialDataOut % 256;
        case SelNone =>
      }
    }
  }
}
