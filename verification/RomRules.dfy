// From manifest rules to update commands, and what the commands will do on the
// console.  software/userland/manifest_to_rom.py

module RomRules {
  import opened Words
  import opened NorFlash
  import opened UpdateManifest
  import opened UpdaterSpec
  import opened RomStore

  const MAXIMUM_PART_SIZE := 49152

  /** A rule line with its files read; `board` is absent when the line names no revision. */
  datatype Rule =
    | Start(at: int)
    | Finish(at: int)
    | FlashFile(data: seq<u8>, at: int, board: Option<int>)
    | PackedFile(packed: seq<u8>, unpacked: seq<u8>, at: int, board: Option<int>)
    | McuFile(data: seq<u8>, at: int, board: Option<int>)
    | CheckRange(from: int, to: int)

  /** The exceptions that abort a build. */
  datatype BuildError = Unaligned | OutOfRange | TooLarge | ListTooLong | DoesNotFit

  datatype Built = Built(store: Store, commands: seq<Command>)

  datatype Result<T> = Ok(value: T) | Err(error: BuildError)

  function BoardOf(board: Option<int>): int {
    if board.Some? then board.value else 0xFFFF
  }

  predicate Fits16(x: int) {
    0 <= x < 0x1_0000
  }

  predicate Fits32(x: int) {
    0 <= x < 0x1_0000_0000
  }

  /** `data` with 0xFF bytes added on one side up to a whole number of sectors. */
  function Padded(data: seq<u8>, right: bool): (p: seq<u8>)
    ensures |p| % SECTOR == 0 && |data| <= |p| < |data| + SECTOR
    ensures forall i :: 0 <= i < |p| ==>
              p[i] == if right then (if i < |data| then data[i] else 0xFF)
                      else (if i < |p| - |data| then 0xFF else data[i - (|p| - |data|)])
  {
    var n := (SECTOR - |data| % SECTOR) % SECTOR;
    if right then data + seq(n, _ => 0xFF) else seq(n, _ => 0xFF) + data
  }

  /** A negative position counts back from its absolute value, by `n` bytes. */
  function PlaceAt(at: int, n: nat): int {
    if at >= 0 then at else -at - n
  }

  function AddPart(crc: seq<u8> -> u16, mcu: bool, st: Store, pos: int, data: seq<u8>, board: int): Result<Built>
    requires |data| <= MAXIMUM_PART_SIZE
  {
    var p := Position(st, data);
    if pos % (if mcu then MCU_PAGE else PAGE) != 0 then Err(Unaligned)
    else if !Fits16(p) || !Fits32(pos) || !Fits16(board) then Err(OutOfRange)
    else Ok(Built(Placed(st, data),
                  [if mcu then McuPart(false, p, |data|, pos, crc(data), board)
                   else FlashPart(false, p, |data|, pos, crc(data), board)]))
  }

  /** A file in parts of at most 48 KiB, one after the other. */
  function AddParts(crc: seq<u8> -> u16, mcu: bool, st: Store, pos: int, data: seq<u8>, board: int): Result<Built>
    decreases |data|
  {
    if |data| <= MAXIMUM_PART_SIZE then AddPart(crc, mcu, st, pos, data, board)
    else
      var first := AddPart(crc, mcu, st, pos, data[..MAXIMUM_PART_SIZE], board);
      if first.Err? then first
      else
        var rest := AddParts(crc, mcu, first.value.store, pos + MAXIMUM_PART_SIZE, data[MAXIMUM_PART_SIZE..], board);
        if rest.Err? then rest
        else Ok(Built(rest.value.store, first.value.commands + rest.value.commands))
  }

  function AddPacked(crc: seq<u8> -> u16, st: Store, packed: seq<u8>, unpacked: seq<u8>,
                     at: int, board: int): Result<Built>
  {
    var pos := PlaceAt(at, |packed|);
    var p := Position(st, packed);
    if |unpacked| > 65535 then Err(TooLarge)
    else if pos % PAGE != 0 then Err(Unaligned)
    else if !Fits16(p) || !Fits32(pos) || !Fits16(board) then Err(OutOfRange)
    else Ok(Built(Placed(st, packed), [FlashPart(true, p, |unpacked|, pos, crc(unpacked), board)]))
  }

  function AddRule(crc: seq<u8> -> u16, st: Store, r: Rule): Result<Built> {
    match r
    case Start(at) => if Fits32(at) then Ok(Built(st, [StartManifest(at)])) else Err(OutOfRange)
    case Finish(at) => if Fits32(at) then Ok(Built(st, [FinishManifest(at)])) else Err(OutOfRange)
    case FlashFile(data, at, board) =>
      var p := Padded(data, at >= 0);
      AddParts(crc, false, st, PlaceAt(at, |p|), p, BoardOf(board))
    case PackedFile(packed, unpacked, at, board) => AddPacked(crc, st, packed, unpacked, at, BoardOf(board))
    case McuFile(data, at, board) => AddParts(crc, true, st, at, data, BoardOf(board))
    case CheckRange(from, to) =>
      if Fits16(from) && Fits16(to) then Ok(Built(st, [CheckBoardRange(from, to)])) else Err(OutOfRange)
  }

  function AddRules(crc: seq<u8> -> u16, st: Store, rules: seq<Rule>): Result<Built>
    decreases |rules|
  {
    if rules == [] then Ok(Built(st, []))
    else
      var first := AddRule(crc, st, rules[0]);
      if first.Err? then first
      else
        var rest := AddRules(crc, first.value.store, rules[1..]);
        if rest.Err? then rest
        else Ok(Built(rest.value.store, first.value.commands + rest.value.commands))
  }

  // ----- splitting -----

  /** The byte at `j` once `data` is flashed part by part. */
  function FlashedParts(pos: nat, data: seq<u8>, j: nat, v: u8): u8
    decreases |data|
  {
    if |data| <= MAXIMUM_PART_SIZE then Flashed(pos, data, j, v)
    else FlashedParts(pos + MAXIMUM_PART_SIZE, data[MAXIMUM_PART_SIZE..], j,
                      Flashed(pos, data[..MAXIMUM_PART_SIZE], j, v))
  }

  /** Does the part after byte `i` erase it again?  Its first sector reaches back over the byte. */
  predicate Lost(pos: nat, n: nat, i: nat) {
    var next := (i / MAXIMUM_PART_SIZE + 1) * MAXIMUM_PART_SIZE;
    next < n && (pos + next) / SECTOR == (pos + i) / SECTOR
  }

  lemma LostInRest(pos: nat, n: nat, i: nat)
    requires MAXIMUM_PART_SIZE <= i < n
    ensures Lost(pos, n, i) == Lost(pos + MAXIMUM_PART_SIZE, n - MAXIMUM_PART_SIZE, i - MAXIMUM_PART_SIZE)
  {
  }

  lemma {:induction false} FlashedPartsAt(pos: nat, data: seq<u8>, j: nat, v: u8)
    ensures FlashedParts(pos, data, j, v) ==
            if pos <= j < pos + |data| then (if Lost(pos, |data|, j - pos) then 0xFF else data[j - pos])
            else Flashed(pos, data, j, v)
    decreases |data|
  {
    if |data| > MAXIMUM_PART_SIZE {
      var next := pos + MAXIMUM_PART_SIZE;
      FlashedPartsAt(next, data[MAXIMUM_PART_SIZE..], j, Flashed(pos, data[..MAXIMUM_PART_SIZE], j, v));
      if next <= j < pos + |data| {
        LostInRest(pos, |data|, j - pos);
      } else {
        SameSector(next, j);
      }
    }
  }

  lemma SameSector(a: nat, j: nat)
    ensures j < a ==> (a / SECTOR * SECTOR <= j <==> a / SECTOR == j / SECTOR)
    ensures j / SECTOR * SECTOR <= j
  {
  }

  /** Splitting is harmless exactly when every byte that a later part erases again was 0xFF. */
  lemma SplitIsDirectIff(pos: nat, data: seq<u8>)
    ensures (forall j: nat, v: u8 :: FlashedParts(pos, data, j, v) == Flashed(pos, data, j, v)) <==>
            (forall i :: 0 <= i < |data| && Lost(pos, |data|, i) ==> data[i] == 0xFF)
  {
    hide Lost, FlashedParts;
    if forall i :: 0 <= i < |data| && Lost(pos, |data|, i) ==> data[i] == 0xFF {
      forall j: nat, v: u8 ensures FlashedParts(pos, data, j, v) == Flashed(pos, data, j, v) {
        FlashedPartsAt(pos, data, j, v);
      }
    } else {
      var i :| 0 <= i < |data| && Lost(pos, |data|, i) && data[i] != 0xFF;
      FlashedPartsAt(pos, data, pos + i, 0);
    }
  }

  /** A sector-aligned file loses nothing, and neither does one that fits one part. */
  lemma AlignedLosesNothing(pos: nat, n: nat, i: nat)
    requires i < n && (pos % SECTOR == 0 || n <= MAXIMUM_PART_SIZE)
    ensures !Lost(pos, n, i)
  {
    if pos % SECTOR == 0 {
      var next := (i / MAXIMUM_PART_SIZE + 1) * MAXIMUM_PART_SIZE;
      assert next == (i / MAXIMUM_PART_SIZE + 1) * 12 * SECTOR;
      assert i < next;
      assert (pos + next) % SECTOR == 0;
    }
  }

  /** The builder only asks for 256-byte alignment, which is not enough: at 0x100 the last byte
      before the second part is gone. */
  lemma PageAlignedLosesBytes(data: seq<u8>, v: u8)
    requires |data| > MAXIMUM_PART_SIZE
    ensures FlashedParts(0x100, data, 0x100 + MAXIMUM_PART_SIZE - 1, v) == 0xFF
    ensures Flashed(0x100, data, 0x100 + MAXIMUM_PART_SIZE - 1, v) == data[MAXIMUM_PART_SIZE - 1]
  {
    FlashedPartsAt(0x100, data, 0x100 + MAXIMUM_PART_SIZE - 1, v);
    assert Lost(0x100, |data|, MAXIMUM_PART_SIZE - 1);
  }

  // ----- the tables stay in order, whatever the rules -----

  lemma {:induction false} PartsArranged(crc: seq<u8> -> u16, mcu: bool, st: Store, top: int, pos: int,
                                         data: seq<u8>, board: int)
    requires Arranged(st, top) && AddParts(crc, mcu, st, pos, data, board).Ok?
    ensures Arranged(AddParts(crc, mcu, st, pos, data, board).value.store, top)
    decreases |data|
  {
    hide Arranged, Placed, Position;
    if |data| <= MAXIMUM_PART_SIZE {
      PlaceKeepsArranged(st, top, data);
    } else {
      var d := data[..MAXIMUM_PART_SIZE];
      PlaceKeepsArranged(st, top, d);
      PartsArranged(crc, mcu, Placed(st, d), top, pos + MAXIMUM_PART_SIZE, data[MAXIMUM_PART_SIZE..], board);
    }
  }

  /** Empty files included, the builder never lets two blocks overlap or leave their space. */
  lemma {:induction false} RulesArranged(crc: seq<u8> -> u16, st: Store, top: int, rules: seq<Rule>)
    requires Arranged(st, top) && AddRules(crc, st, rules).Ok?
    ensures Arranged(AddRules(crc, st, rules).value.store, top)
    decreases |rules|
  {
    hide Arranged, Placed, Position, AddParts, Padded;
    if rules != [] {
      match rules[0] {
        case FlashFile(data, at, board) =>
          var p := Padded(data, at >= 0);
          PartsArranged(crc, false, st, top, PlaceAt(at, |p|), p, BoardOf(board));
        case McuFile(data, at, board) => PartsArranged(crc, true, st, top, at, data, BoardOf(board));
        case PackedFile(packed, _, _, _) => PlaceKeepsArranged(st, top, packed);
        case _ =>
      }
      RulesArranged(crc, AddRule(crc, st, rules[0]).value.store, top, rules[1..]);
    }
  }
}
