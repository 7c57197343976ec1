// The command list of an update: how the builder packs it and how the updater
// walks it.  manifest_to_rom.py, updater/manifest.h

module UpdateManifest {
  import opened Words

  datatype Command =
    | FlashPart(packed: bool, segment: u16, length: u16, address: u32, crc: u16, board: u16)
    | McuPart(packed: bool, segment: u16, length: u16, address: u32, crc: u16, board: u16)
    | StartManifest(address: u32)
    | FinishManifest(address: u32)
    | CheckBoardRange(min: u16, max: u16)

  // ----- little-endian fields -----

  function Le16(v: u16): seq<u8> {
    [v % 0x100, v / 0x100]
  }

  function Le32(v: u32): seq<u8> {
    Le16(v % 0x1_0000) + Le16(v / 0x1_0000)
  }

  function Get16(b: seq<u8>, i: nat): u16
    requires i + 2 <= |b|
  {
    b[i] as int + 0x100 * b[i + 1] as int
  }

  function Get32(b: seq<u8>, i: nat): u32
    requires i + 4 <= |b|
  {
    Get16(b, i) as int + 0x1_0000 * Get16(b, i + 2) as int
  }

  // ----- packing -----

  function PartFields(segment: u16, length: u16, address: u32, crc: u16, board: u16): (b: seq<u8>)
    ensures |b| == 12
  {
    Le16(segment) + Le16(length) + Le32(address) + Le16(crc) + Le16(board)
  }

  function Encode(c: Command): (b: seq<u8>)
    ensures |b| > 0 && |b| == OpSize(b[0])
  {
    match c
    case FlashPart(p, s, l, a, k, r) => [if p then 0x03 else 0x02] + PartFields(s, l, a, k, r)
    case McuPart(p, s, l, a, k, r) => [if p then 0x05 else 0x04] + PartFields(s, l, a, k, r)
    case StartManifest(a) => [0x06] + Le32(a)
    case FinishManifest(a) => [0x07] + Le32(a)
    case CheckBoardRange(lo, hi) => [0x08] + Le16(lo) + Le16(hi)
  }

  function EncodeAll(cs: seq<Command>): seq<u8> {
    if cs == [] then [] else Encode(cs[0]) + EncodeAll(cs[1..])
  }

  /** The 16-bit number whose low byte is at `i`. */
  predicate Has16(b: seq<u8>, i: nat, v: int) {
    i + 2 <= |b| && b[i] as int + 256 * b[i + 1] as int == v
  }

  /** The 32-bit number whose lowest byte is at `i`. */
  predicate Has32(b: seq<u8>, i: nat, v: int) {
    i + 4 <= |b|
    && b[i] as int + 256 * b[i + 1] as int + 0x1_0000 * b[i + 2] as int + 0x100_0000 * b[i + 3] as int == v
  }

  /** The bytes of a command: its number, then its fields, each with its lowest byte first. */
  lemma CommandLayout(c: Command)
    ensures var b := Encode(c);
            match c
            case FlashPart(packed, segment, length, address, crc, board) =>
              && |b| == 13 && b[0] == (if packed then 3 else 2)
              && Has16(b, 1, segment) && Has16(b, 3, length) && Has32(b, 5, address) && Has16(b, 9, crc)
              && Has16(b, 11, board)
            case McuPart(packed, segment, length, address, crc, board) =>
              && |b| == 13 && b[0] == (if packed then 5 else 4)
              && Has16(b, 1, segment) && Has16(b, 3, length) && Has32(b, 5, address) && Has16(b, 9, crc)
              && Has16(b, 11, board)
            case StartManifest(address) => |b| == 5 && b[0] == 6 && Has32(b, 1, address)
            case FinishManifest(address) => |b| == 5 && b[0] == 7 && Has32(b, 1, address)
            case CheckBoardRange(min, max) => |b| == 5 && b[0] == 8 && Has16(b, 1, min) && Has16(b, 3, max)
  {
    if c.FlashPart? || c.McuPart? {
      PartFieldsLayout(Encode(c)[0], c.segment, c.length, c.address, c.crc, c.board);
    }
  }

  lemma PartFieldsLayout(op: u8, segment: u16, length: u16, address: u32, crc: u16, board: u16)
    ensures var b := [op] + PartFields(segment, length, address, crc, board);
            && Has16(b, 1, segment) && Has16(b, 3, length) && Has32(b, 5, address) && Has16(b, 9, crc)
            && Has16(b, 11, board)
  {
    var b := [op] + PartFields(segment, length, address, crc, board);
    assert b[1..3] == Le16(segment) && b[3..5] == Le16(length);
    assert b[5..7] == Le16(address % 0x1_0000) && b[7..9] == Le16(address / 0x1_0000);
    assert b[9..11] == Le16(crc) && b[11..13] == Le16(board);
    assert b[1] == b[1..3][0] && b[2] == b[1..3][1] && b[3] == b[3..5][0] && b[4] == b[3..5][1];
    assert b[5] == b[5..7][0] && b[6] == b[5..7][1] && b[7] == b[7..9][0] && b[8] == b[7..9][1];
    assert b[9] == b[9..11][0] && b[10] == b[9..11][1] && b[11] == b[11..13][0] && b[12] == b[11..13][1];
  }

  // ----- walking -----

  /** Bytes taken by a command with this first byte; 0 if there is no such command. */
  function OpSize(op: u8): nat {
    if 0x02 <= op <= 0x05 then 13 else if 0x06 <= op <= 0x08 then 5 else 0
  }

  function Decode(b: seq<u8>): Command
    requires b != [] && 0 < OpSize(b[0]) <= |b|
  {
    if b[0] <= 0x03 then
      FlashPart(b[0] == 0x03, Get16(b, 1), Get16(b, 3), Get32(b, 5), Get16(b, 9), Get16(b, 11))
    else if b[0] <= 0x05 then
      McuPart(b[0] == 0x05, Get16(b, 1), Get16(b, 3), Get32(b, 5), Get16(b, 9), Get16(b, 11))
    else if b[0] == 0x06 then StartManifest(Get32(b, 1))
    else if b[0] == 0x07 then FinishManifest(Get32(b, 1))
    else CheckBoardRange(Get16(b, 1), Get16(b, 3))
  }

  /** How a walk ends: at a zero byte, at a byte that starts no command, or past the buffer. */
  datatype End = Terminated | Corrupt | Overrun

  datatype Parsed = Parsed(commands: seq<Command>, end: End)

  /** The commands that the interpreter meets from the start of `b`. */
  function Parse(b: seq<u8>): Parsed
    decreases |b|
  {
    if b == [] then Parsed([], Overrun)
    else if b[0] == 0 then Parsed([], Terminated)
    else if OpSize(b[0]) == 0 then Parsed([], Corrupt)
    else if |b| < OpSize(b[0]) then Parsed([], Overrun)
    else
      var rest := Parse(b[OpSize(b[0])..]);
      Parsed([Decode(b)] + rest.commands, rest.end)
  }

  lemma GetLe16(b: seq<u8>, i: nat, v: u16)
    requires i + 2 <= |b| && b[i..i + 2] == Le16(v)
    ensures Get16(b, i) == v
  {
    assert b[i] == b[i..i + 2][0] && b[i + 1] == b[i..i + 2][1];
  }

  lemma GetLe32(b: seq<u8>, i: nat, v: u32)
    requires i + 4 <= |b| && b[i..i + 4] == Le32(v)
    ensures Get32(b, i) == v
  {
    assert b[i..i + 2] == b[i..i + 4][..2] == Le16(v % 0x1_0000);
    assert b[i + 2..i + 4] == b[i..i + 4][2..] == Le16(v / 0x1_0000);
    GetLe16(b, i, v % 0x1_0000);
    GetLe16(b, i + 2, v / 0x1_0000);
  }

  lemma DecodePart(b: seq<u8>, tail: seq<u8>, op: u8, s: u16, l: u16, a: u32, k: u16, r: u16)
    requires b == [op] + PartFields(s, l, a, k, r) + tail
    ensures Get16(b, 1) == s && Get16(b, 3) == l && Get32(b, 5) == a && Get16(b, 9) == k && Get16(b, 11) == r
  {
    assert b[1..3] == Le16(s);
    assert b[3..5] == Le16(l);
    assert b[5..9] == Le32(a);
    assert b[9..11] == Le16(k);
    assert b[11..13] == Le16(r);
    GetLe16(b, 1, s);
    GetLe16(b, 3, l);
    GetLe32(b, 5, a);
    GetLe16(b, 9, k);
    GetLe16(b, 11, r);
  }

  lemma DecodeEncode(c: Command, tail: seq<u8>)
    ensures Decode(Encode(c) + tail) == c
  {
    var b := Encode(c) + tail;
    match c
    case FlashPart(p, s, l, a, k, r) => DecodePart(b, tail, b[0], s, l, a, k, r);
    case McuPart(p, s, l, a, k, r) => DecodePart(b, tail, b[0], s, l, a, k, r);
    case StartManifest(a) => assert b[1..5] == Le32(a); GetLe32(b, 1, a);
    case FinishManifest(a) => assert b[1..5] == Le32(a); GetLe32(b, 1, a);
    case CheckBoardRange(lo, hi) =>
      assert b[1..3] == Le16(lo) && b[3..5] == Le16(hi);
      GetLe16(b, 1, lo);
      GetLe16(b, 3, hi);
  }

  /** Round trip: a packed list followed by a zero byte walks back to itself, whatever follows. */
  lemma {:induction false} ParseEncode(cs: seq<Command>, tail: seq<u8>)
    ensures Parse(EncodeAll(cs) + [0] + tail) == Parsed(cs, Terminated)
  {
    hide Encode, Decode;
    var b := EncodeAll(cs) + [0] + tail;
    if cs == [] {
      assert b[0] == 0;
    } else {
      var rest := EncodeAll(cs[1..]) + [0] + tail;
      assert b == Encode(cs[0]) + rest;
      DecodeEncode(cs[0], rest);
      assert b[|Encode(cs[0])|..] == rest;
      ParseEncode(cs[1..], tail);
      assert [cs[0]] + cs[1..] == cs;
    }
  }

  /** A walk that ends well consumes at least five bytes a command before its zero byte. */
  lemma {:induction false} ParseConsumes(b: seq<u8>)
    requires Parse(b).end.Terminated?
    ensures 5 * |Parse(b).commands| < |b|
    decreases |b|
  {
    if b[0] != 0 {
      ParseConsumes(b[OpSize(b[0])..]);
    }
  }

  lemma Le16Get(b: seq<u8>, i: nat)
    requires i + 2 <= |b|
    ensures Le16(Get16(b, i)) == b[i..i + 2]
  {
    assert b[i..i + 2] == [b[i], b[i + 1]];
  }

  lemma Le32Get(b: seq<u8>, i: nat)
    requires i + 4 <= |b|
    ensures Le32(Get32(b, i)) == b[i..i + 4]
  {
    Le16Get(b, i);
    Le16Get(b, i + 2);
    assert Get32(b, i) % 0x1_0000 == Get16(b, i) && Get32(b, i) / 0x1_0000 == Get16(b, i + 2);
    assert b[i..i + 4] == b[i..i + 2] + b[i + 2..i + 4];
  }

  lemma PartDecodes(b: seq<u8>)
    requires |b| >= 13
    ensures [b[0]] + PartFields(Get16(b, 1), Get16(b, 3), Get32(b, 5), Get16(b, 9), Get16(b, 11)) == b[..13]
  {
    hide Le16, Le32, Get16, Get32;
    Le16Get(b, 1);
    Le16Get(b, 3);
    Le32Get(b, 5);
    Le16Get(b, 9);
    Le16Get(b, 11);
    assert b[..13] == [b[0]] + (b[1..3] + b[3..5] + b[5..9] + b[9..11] + b[11..13]);
  }

  lemma EncodeDecode(b: seq<u8>)
    requires b != [] && 0 < OpSize(b[0]) <= |b|
    ensures Encode(Decode(b)) == b[..OpSize(b[0])]
  {
    hide Le16, Le32, Get16, Get32, PartFields;
    if b[0] <= 0x05 {
      PartDecodes(b);
    } else if b[0] <= 0x07 {
      Le32Get(b, 1);
      assert b[..5] == [b[0]] + b[1..5];
    } else {
      Le16Get(b, 1);
      Le16Get(b, 3);
      assert b[..5] == [b[0]] + b[1..3] + b[3..5];
    }
  }

  /** The other round trip: a walk ends well exactly if the buffer begins with a packed list and a
      zero byte, and then that list is what it meets. */
  lemma {:induction false} EncodeParse(b: seq<u8>)
    ensures Parse(b).end.Terminated? ==> EncodeAll(Parse(b).commands) + [0] <= b
    ensures forall cs :: EncodeAll(cs) + [0] <= b ==> Parse(b) == Parsed(cs, Terminated)
    decreases |b|
  {
    hide Encode, Decode, OpSize;
    forall cs | EncodeAll(cs) + [0] <= b ensures Parse(b) == Parsed(cs, Terminated) {
      var n := |EncodeAll(cs) + [0]|;
      assert b == EncodeAll(cs) + [0] + b[n..];
      ParseEncode(cs, b[n..]);
    }
    if Parse(b).end.Terminated? {
      WalkIsList(b);
    }
  }

  lemma {:induction false} WalkIsList(b: seq<u8>)
    requires Parse(b).end.Terminated?
    ensures EncodeAll(Parse(b).commands) + [0] <= b
    decreases |b|
  {
    hide Encode, Decode;
    if b[0] == 0 {
      assert b == [0] + b[1..];
    } else {
      var n := OpSize(b[0]);
      EncodeDecode(b);
      WalkIsList(b[n..]);
      assert b == b[..n] + b[n..];
      assert Parse(b).commands[0] == Decode(b) && Parse(b).commands[1..] == Parse(b[n..]).commands;
    }
  }
}
