// What both halves of the EEPROM emulation are meant to be: a word array with a
// write-enable latch, plus the decoding shared by the FPGA and the MCU.

module EepromChip {
  import opened Words

  /** The 1024 words reserved on either side, whatever the emulated size. */
  type Image = w: seq<u16> | |w| == 1024 witness seq(1024, _ => 0)

  /** fpga/rtl/eeprom.sv, EEPROMSize, without the absent chip. */
  datatype Size = Size128B | Size1KB | Size2KB

  datatype Cmd = CmdWrite | CmdErase | CmdEraseAll | CmdWriteAll {
    /** Kinds that carry a data word after the command word. */
    predicate HasData() { CmdWrite? || CmdWriteAll? }
  }

  /** Number of words; the address mask is one less. */
  function WordCount(size: Size): (n: nat)
    ensures n == 64 || n == 512 || n == 1024
  {
    match size
    case Size128B => 64
    case Size1KB => 512
    case Size2KB => 1024
  }

  function Address(size: Size, command: u16): (a: nat)
    ensures a < WordCount(size)
  {
    command % WordCount(size)
  }

  /** Start bit, opcode and the two address bits that select extended opcodes. */
  function Op(size: Size, command: u16): nat {
    if size.Size128B? then command / 16 % 32 else command / 256 % 32
  }

  predicate OpIs(op: nat, cmd: Cmd) {
    match cmd
    case CmdWrite => op / 4 == 5
    case CmdWriteAll => op == 17
    case CmdErase => op / 4 == 7
    case CmdEraseAll => op == 18
  }

  function Fill(w: Image, n: nat, v: u16): (w': Image)
    requires n <= 1024
    ensures forall i :: 0 <= i < 1024 ==> w'[i] == if i < n then v else w[i]
  {
    seq(n, _ => v) + w[n..]
  }

  /** A chip of `size` obeying `cmd`, with erase-all reaching the first `eraseAll` words. */
  function Obey(w: Image, size: Size, cmd: Cmd, command: u16, data: u16, eraseAll: nat): Image
    requires eraseAll <= 1024
  {
    match cmd
    case CmdWrite => w[Address(size, command) := data]
    case CmdErase => w[Address(size, command) := 0xFFFF]
    case CmdWriteAll => Fill(w, WordCount(size), data)
    case CmdEraseAll => Fill(w, eraseAll, 0xFFFF)
  }
}
