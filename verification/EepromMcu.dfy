// The MCU side: a two-phase word machine over a battery-backed array.
// firmware/src/eeprom.c, with CONFIG_FULL_EEPROM_EMULATION off as configured.

module EepromMcu {
  import opened Words
  import opened EepromChip

  datatype EepromType =
    | EEPROM_NONE | EEPROM_M93LC06 | EEPROM_M93LC46 | EEPROM_M93LC56
    | EEPROM_M93LC66 | EEPROM_M93LC76 | EEPROM_M93LC86

  datatype Mcu = Mcu(addressMask: nat, commandBits: nat, writeCommand: u16, data: Image)

  /** Low-bit masks: `w & addressMask` is a remainder. */
  predicate ValidMcu(m: Mcu) {
    m.addressMask < 1024
  }

  function CommandOf(commandBits: nat, w: u16): nat {
    w / Pow2(commandBits) % 32
  }

  predicate IsWriteOp(cmd: nat) {
    cmd == 0x11 || 0x14 <= cmd <= 0x17
  }

  /** The state after one word, and whether the word ended with a release of the busy line. */
  function ExchWord(m: Mcu, w: u16): (r: (Mcu, bool))
    requires ValidMcu(m)
    ensures ValidMcu(r.0) && r.0.addressMask == m.addressMask && r.0.commandBits == m.commandBits
  {
    if m.writeCommand != 0 then
      var cmd := CommandOf(m.commandBits, m.writeCommand);
      (m.(writeCommand := 0,
          data := if cmd == 0x11 then Fill(m.data, m.addressMask + 1, w)
                  else m.data[m.writeCommand % (m.addressMask + 1) := w]), true)
    else
      var cmd := CommandOf(m.commandBits, w);
      if cmd == 0x12 then (m.(data := Fill(m.data, m.addressMask + 1, 0xFFFF)), true)
      else if IsWriteOp(cmd) then (m.(writeCommand := w), false)
      else if 0x1C <= cmd then (m.(data := m.data[w % (m.addressMask + 1) := 0xFFFF]), true)
      else (m, true)
  }

  /** A first word by the fields of its five command bits, a start bit, two of opcode and two more:
      a write, opcode 1, and a write-all, 0 with a 1 below, wait for a second word; an erase,
      opcode 3, blanks its word and an erase-all, 0 with a 2 below, all words; anything else does
      nothing.  All but the first two release the busy line at once. */
  lemma FirstWord(m: Mcu, w: u16, i: nat)
    requires ValidMcu(m) && m.writeCommand == 0 && i < 1024
    ensures var cmd := w / Pow2(m.commandBits) % 32;
            var start, opcode, short := cmd / 16 == 1, cmd / 4 % 4, cmd % 4;
            var (n, released) := ExchWord(m, w);
            && (released <==> !(start && (opcode == 1 || (opcode == 0 && short == 1))))
            && n.writeCommand == (if released then 0 else w)
            && n.data[i] ==
                 (if start && ((opcode == 3 && i == w % (m.addressMask + 1))
                               || (opcode == 0 && short == 2 && i <= m.addressMask))
                  then 0xFFFF else m.data[i])
  {
    hide Pow2;
  }

  /** The second word goes to the address of the first, or, after a write-all, to every word. */
  lemma SecondWord(m: Mcu, w: u16, i: nat)
    requires ValidMcu(m) && m.writeCommand != 0 && i < 1024
    ensures var all := m.writeCommand / Pow2(m.commandBits) % 32 == 0x11;
            var (n, released) := ExchWord(m, w);
            && released && n.writeCommand == 0
            && n.data[i] == (if (if all then i <= m.addressMask else i == m.writeCommand % (m.addressMask + 1))
                             then w else m.data[i])
  {
    hide Pow2;
  }

  class Firmware {
    var addressMask: nat
    var commandBits: nat
    var writeCommand: u16
    var busyPin: bool
    const eepromData: array<u16>

    ghost predicate Valid()
      reads this
    {
      eepromData.Length == 1024 && addressMask < 1024
    }

    ghost function State(): Mcu
      reads this, eepromData
      requires Valid()
    {
      Mcu(addressMask, commandBits, writeCommand, eepromData[..])
    }

    constructor (data: array<u16>)
      requires data.Length == 1024
      ensures Valid() && eepromData == data && State() == Mcu(0, 0, 0, data[..])
    {
      addressMask, commandBits, writeCommand, busyPin := 0, 0, 0, false;
      eepromData := data;
    }

    method SetType(t: EepromType)
      requires Valid()
      modifies this
      ensures Valid() && writeCommand == 0 && eepromData[..] == old(eepromData[..])
      ensures match t
              case EEPROM_NONE => addressMask + 1 == 1 && commandBits == 0
              case EEPROM_M93LC06 => addressMask + 1 == 16 && commandBits == 4
              case EEPROM_M93LC46 => addressMask + 1 == 64 && commandBits == 4
              case EEPROM_M93LC56 => addressMask + 1 == 128 && commandBits == 6
              case EEPROM_M93LC66 => addressMask + 1 == 256 && commandBits == 6
              case EEPROM_M93LC76 => addressMask + 1 == 512 && commandBits == 8
              case EEPROM_M93LC86 => addressMask + 1 == 1024 && commandBits == 8
      ensures t.EEPROM_M93LC46? ==> addressMask + 1 == WordCount(Size128B) && commandBits == 4
      ensures t.EEPROM_M93LC76? ==> addressMask + 1 == WordCount(Size1KB) && commandBits == 8
      ensures t.EEPROM_M93LC86? ==> addressMask + 1 == WordCount(Size2KB) && commandBits == 8
    {
      writeCommand := 0;
      match t {
        case EEPROM_NONE => addressMask, commandBits := 0, 0;
        case EEPROM_M93LC06 => addressMask, commandBits := 0xF, 4;
        case EEPROM_M93LC46 => addressMask, commandBits := 0x3F, 4;
        case EEPROM_M93LC56 => addressMask, commandBits := 0x7F, 6;
        case EEPROM_M93LC66 => addressMask, commandBits := 0xFF, 6;
        case EEPROM_M93LC76 => addressMask, commandBits := 0x1FF, 8;
        case EEPROM_M93LC86 => addressMask, commandBits := 0x3FF, 8;
      }
    }

    method FillWords(v: u16)
      requires Valid()
      modifies eepromData
      ensures eepromData[..] == Fill(old(eepromData[..]), addressMask + 1, v)
    {
      var i := 0;
      while i <= addressMask
        invariant 0 <= i <= addressMask + 1
        invariant forall k :: 0 <= k < 1024 ==> eepromData[k] == if k < i then v else old(eepromData[k])
      {
        eepromData[i] := v;
        i := i + 1;
      }
    }

    /** Replays one word; the busy pin is released exactly when ExchWord says so, and by then
        the array has its final contents. */
    method ExchangeWord(w: u16)
      requires Valid()
      modifies this, eepromData
      ensures Valid()
      ensures State() == ExchWord(old(State()), w).0
      ensures busyPin == !ExchWord(old(State()), w).1
    {
      busyPin := true;
      if writeCommand != 0 {
        var cmd := CommandOf(commandBits, writeCommand);
        if cmd == 0x11 {
          FillWords(w);
        } else {
          eepromData[writeCommand % (addressMask + 1)] := w;
        }
        writeCommand := 0;
        busyPin := false;
        return;
      }
      var cmd := CommandOf(commandBits, w);
      if cmd == 0x12 {
        FillWords(0xFFFF);
        busyPin := false;
      } else if cmd == 0x11 || 0x14 <= cmd <= 0x17 {
        writeCommand := w;
      } else {
        if 0x1C <= cmd <= 0x1F {
          eepromData[w % (addressMask + 1)] := 0xFFFF;
        }
        busyPin := false;
      }
    }
  }
}
