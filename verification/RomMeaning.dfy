// What the commands of a built list do on the console, rule by rule: exactly what the
// rule says, applied directly to the flash.

module RomMeaning {
  import opened Words
  import opened NorFlash
  import opened UpdateManifest
  import opened UpdaterSpec
  import opened UpdateEffect
  import opened UpdateCompletes
  import opened RomStore
  import opened RomRules

  /** The files a rule names are not empty. */
  predicate HasData(r: Rule) {
    match r
    case FlashFile(data, _, _) => data != []
    case McuFile(data, _, _) => data != []
    case PackedFile(packed, _, _, _) => packed != []
    case _ => true
  }

  /** What the codec promises: unpacking ignores whatever follows the packed bytes. */
  ghost predicate Unpacks(env: Env, r: Rule) {
    r.PackedFile? ==> forall tail :: env.unzip(r.packed + tail) == r.unpacked
  }

  /** Every block is in the console's memory at its segment. */
  ghost predicate Mapped(env: Env, st: Store) {
    forall k :: k in st.blocks ==>
      0 <= k && k * 16 + |st.blocks[k]| <= |env.memory|
      && env.memory[k * 16..k * 16 + |st.blocks[k]|] == st.blocks[k]
  }

  predicate ForBoard(env: Env, board: Option<int>) {
    BoardOf(board) >= 0x100 || BoardOf(board) == env.board
  }

  /** The byte at `j` after one rule, its file flashed in parts. */
  function PartByPart(env: Env, r: Rule, j: nat, v: u8): u8 {
    match r
    case FlashFile(data, at, board) =>
      var p := Padded(data, at >= 0);
      var pos := PlaceAt(at, |p|);
      if ForBoard(env, board) && pos >= 0 then FlashedParts(pos, p, j, v) else v
    case PackedFile(packed, unpacked, at, board) =>
      var pos := PlaceAt(at, |packed|);
      if ForBoard(env, board) && pos >= 0 then Flashed(pos, unpacked, j, v) else v
    case _ => v
  }

  function PartByPartAll(env: Env, rules: seq<Rule>, j: nat, v: u8): u8
    decreases |rules|
  {
    if rules == [] then v else PartByPartAll(env, rules[1..], j, PartByPart(env, rules[0], j, v))
  }

  /** The bytes a rule asks to have in the flash. */
  function FileData(r: Rule): seq<u8> {
    match r
    case FlashFile(data, at, _) => Padded(data, at >= 0)
    case PackedFile(_, unpacked, _, _) => unpacked
    case _ => []
  }

  /** Where the rule asks for them: a negative position says where they end. */
  function FileAt(r: Rule): int
    requires r.FlashFile? || r.PackedFile?
  {
    PlaceAt(r.at, |FileData(r)|)
  }

  predicate WritesFlash(env: Env, r: Rule) {
    (r.FlashFile? || r.PackedFile?) && ForBoard(env, r.board) && FileAt(r) >= 0
  }

  /** The byte at `j` after one rule is applied directly: the whole file is flashed where the rule
      asks for it, which blanks the rest of the sectors it overlaps. */
  function Direct(env: Env, r: Rule, j: nat, v: u8): u8 {
    if WritesFlash(env, r) then Flashed(FileAt(r), FileData(r), j, v) else v
  }

  function DirectAll(env: Env, rules: seq<Rule>, j: nat, v: u8): u8
    decreases |rules|
  {
    if rules == [] then v else DirectAll(env, rules[1..], j, Direct(env, rules[0], j, v))
  }

  /** No part of the file erases bytes of the part before it, unless they were 0xFF. */
  predicate SplitsCleanly(r: Rule) {
    r.FlashFile? ==>
      var p := Padded(r.data, r.at >= 0);
      var pos := PlaceAt(r.at, |p|);
      pos >= 0 ==> forall i :: 0 <= i < |p| && Lost(pos, |p|, i) ==> p[i] == 0xFF
  }

  /** The builder counts a packed file back from a negative position by its packed length. */
  predicate PlacedAsAsked(r: Rule) {
    r.PackedFile? && r.at < 0 ==> |r.packed| == |r.unpacked|
  }

  /** The rule's commands will do what the rule says. */
  predicate AsWritten(r: Rule) {
    SplitsCleanly(r) && PlacedAsAsked(r)
  }

  /** Rules the updater turns down although the builder accepts them. */
  predicate TurnedDown(env: Env, r: Rule) {
    match r
    case Start(at) => at % SECTOR != 0
    case Finish(at) => at % SECTOR != 0
    case CheckRange(from, to) => env.board < from || env.board > to
    case McuFile(_, _, board) => ForBoard(env, board) && !env.mcuRestarts
    case _ => false
  }

  // ----- reading back -----

  lemma ReadsBack(env: Env, st: Store, p: u16, data: seq<u8>)
    requires Mapped(env, st) && p in st.blocks && st.blocks[p] == data
    ensures LoadBytes(env, p, |data|) == data
    ensures exists tail :: env.memory[p * 16..] == data + tail
  {
    assert env.memory[p * 16..] == data + env.memory[p * 16 + |data|..];
    forall i | 0 <= i < |data| ensures env.memory[(p * 16 + i) % 0x10_0000] == data[i] {
      assert data[i] == env.memory[p * 16..p * 16 + |data|][i];
    }
  }

  lemma {:induction false} InstalledConcat(env: Env, a: seq<Command>, b: seq<Command>, j: nat, v: u8)
    ensures Installed(env, a + b, j, v) == Installed(env, b, j, Installed(env, a, j, v))
    decreases |a|
  {
    hide Flashed, PartData;
    if a == [] {
      assert a + b == b;
    } else {
      assert (a + b)[1..] == a[1..] + b;
      var w := if IsDataPart(env, a[0]) then
                 Flashed(a[0].address, PartData(env, a[0]), j, v) else v;
      InstalledConcat(env, a[1..], b, j, w);
    }
  }

  lemma InstalledOne(env: Env, c: Command, j: nat, v: u8)
    ensures Installed(env, [c], j, v) ==
            if IsDataPart(env, c) then Flashed(c.address, PartData(env, c), j, v) else v
  {
    hide Flashed, PartData;
    assert [c][1..] == [];
  }

  // ----- one part -----

  lemma PartMeaning(env: Env, mcu: bool, st: Store, top: int, pos: int, data: seq<u8>, board: int, later: Store)
    requires Tidy(st, top) && data != [] && |data| <= MAXIMUM_PART_SIZE
    requires AddPart(env.crc, mcu, st, pos, data, board).Ok?
    ensures var b := AddPart(env.crc, mcu, st, pos, data, board).value;
            Tidy(b.store, top) && Keeps(st, b.store) && Remembers(st, b.store)
    ensures var b := AddPart(env.crc, mcu, st, pos, data, board).value;
            Mapped(env, later) && Keeps(b.store, later) ==>
              && PartData(env, b.commands[0]) == data
              && (Refused(env, b.commands[0]) <==> mcu && (board >= 0x100 || board == env.board) && !env.mcuRestarts)
  {
    hide Tidy;
    PlaceKeepsTidy(st, top, data);
    PlaceRemembers(st, data);
    var b := AddPart(env.crc, mcu, st, pos, data, board).value;
    if Mapped(env, later) && Keeps(b.store, later) {
      ReadsBack(env, later, Position(st, data), data);
    }
  }

  // ----- one file -----

  lemma {:induction false} PartsMeaning(env: Env, mcu: bool, st: Store, top: int, pos: int, data: seq<u8>, board: int)
    requires Tidy(st, top) && data != []
    requires AddParts(env.crc, mcu, st, pos, data, board).Ok?
    ensures var b := AddParts(env.crc, mcu, st, pos, data, board).value;
            Tidy(b.store, top) && Keeps(st, b.store) && Remembers(st, b.store)
    decreases |data|
  {
    hide Tidy, AddPart;
    if |data| <= MAXIMUM_PART_SIZE {
      PartMeaning(env, mcu, st, top, pos, data, board, st);
    } else {
      var d := data[..MAXIMUM_PART_SIZE];
      PartMeaning(env, mcu, st, top, pos, d, board, st);
      var st' := AddPart(env.crc, mcu, st, pos, d, board).value.store;
      PartsMeaning(env, mcu, st', top, pos + MAXIMUM_PART_SIZE, data[MAXIMUM_PART_SIZE..], board);
    }
  }

  lemma {:induction false} PartsInstall(env: Env, mcu: bool, st: Store, top: int, pos: int, data: seq<u8>, board: int,
                                        later: Store, j: nat, v: u8)
    requires Tidy(st, top) && data != []
    requires AddParts(env.crc, mcu, st, pos, data, board).Ok?
    requires Mapped(env, later) && Keeps(AddParts(env.crc, mcu, st, pos, data, board).value.store, later)
    ensures var cs := AddParts(env.crc, mcu, st, pos, data, board).value.commands;
            var mine := board >= 0x100 || board == env.board;
            && pos >= 0
            && Installed(env, cs, j, v) == (if !mcu && mine then FlashedParts(pos, data, j, v) else v)
            && (forall c :: c in cs ==> !IsBookkeeping(c) && (Refused(env, c) <==> mcu && mine && !env.mcuRestarts))
            && cs != []
    decreases |data|
  {
    hide Tidy, Flashed, PartData, Refused, Mapped;
    if |data| <= MAXIMUM_PART_SIZE {
      PartMeaning(env, mcu, st, top, pos, data, board, later);
      InstalledOne(env, AddPart(env.crc, mcu, st, pos, data, board).value.commands[0], j, v);
    } else {
      var d, rest := data[..MAXIMUM_PART_SIZE], data[MAXIMUM_PART_SIZE..];
      PartMeaning(env, mcu, st, top, pos, d, board, st);
      var b := AddPart(env.crc, mcu, st, pos, d, board).value;
      PartsMeaning(env, mcu, b.store, top, pos + MAXIMUM_PART_SIZE, rest, board);
      PartMeaning(env, mcu, st, top, pos, d, board, later);
      var b' := AddParts(env.crc, mcu, b.store, pos + MAXIMUM_PART_SIZE, rest, board).value;
      InstalledConcat(env, b.commands, b'.commands, j, v);
      InstalledOne(env, b.commands[0], j, v);
      PartsInstall(env, mcu, b.store, top, pos + MAXIMUM_PART_SIZE, rest, board, later, j, Installed(env, b.commands, j, v));
    }
  }

  lemma PackedMeaning(env: Env, st: Store, top: int, r: Rule, later: Store)
    requires Tidy(st, top) && r.PackedFile? && HasData(r) && Unpacks(env, r)
    requires AddRule(env.crc, st, r).Ok?
    ensures var b := AddRule(env.crc, st, r).value;
            Tidy(b.store, top) && Keeps(st, b.store) && Remembers(st, b.store)
    ensures var b := AddRule(env.crc, st, r).value;
            Mapped(env, later) && Keeps(b.store, later) ==>
              && PartData(env, b.commands[0]) == r.unpacked
              && !Refused(env, b.commands[0])
  {
    hide Tidy, Mapped;
    PlaceKeepsTidy(st, top, r.packed);
    PlaceRemembers(st, r.packed);
    var b := AddRule(env.crc, st, r).value;
    if Mapped(env, later) && Keeps(b.store, later) {
      var p := Position(st, r.packed);
      ReadsBack(env, later, p, r.packed);
      var tail :| env.memory[p * 16..] == r.packed + tail;
      assert env.unzip(env.memory[p * 16..]) == r.unpacked;
      assert r.unpacked[..|r.unpacked|] == r.unpacked;
    }
  }

  // ----- one rule -----

  lemma RuleKeepsTidy(env: Env, st: Store, top: int, r: Rule)
    requires Tidy(st, top) && HasData(r) && AddRule(env.crc, st, r).Ok?
    ensures var b := AddRule(env.crc, st, r).value;
            Tidy(b.store, top) && Keeps(st, b.store) && Remembers(st, b.store)
  {
    hide Tidy, AddParts, Padded;
    match r
    case FlashFile(data, at, board) =>
      var p := Padded(data, at >= 0);
      PartsMeaning(env, false, st, top, PlaceAt(at, |p|), p, BoardOf(board));
    case McuFile(data, at, board) => PartsMeaning(env, true, st, top, at, data, BoardOf(board));
    case PackedFile(packed, _, _, _) =>
      PlaceKeepsTidy(st, top, packed);
      PlaceRemembers(st, packed);
    case _ =>
  }

  /** A rule's commands do to the flash what the rule says, and the updater turns one of them
      down exactly when the rule is misplaced or meant for other boards. */
  lemma RuleInstalls(env: Env, st: Store, top: int, r: Rule, later: Store, j: nat, v: u8)
    requires Tidy(st, top) && HasData(r) && Unpacks(env, r) && AddRule(env.crc, st, r).Ok?
    requires Mapped(env, later) && Keeps(AddRule(env.crc, st, r).value.store, later)
    ensures var cs := AddRule(env.crc, st, r).value.commands;
            && Installed(env, cs, j, v) == PartByPart(env, r, j, v)
            && ((exists c :: c in cs && Refused(env, c)) <==> TurnedDown(env, r))
  {
    hide Tidy, AddParts, Padded, Installed, Mapped, Unpacks, FlashedParts, Flashed;
    var cs := AddRule(env.crc, st, r).value.commands;
    match r
    case FlashFile(data, at, board) =>
      hide Refused;
      var p := Padded(data, at >= 0);
      PartsInstall(env, false, st, top, PlaceAt(at, |p|), p, BoardOf(board), later, j, v);
    case McuFile(data, at, board) =>
      hide Refused;
      PartsInstall(env, true, st, top, at, data, BoardOf(board), later, j, v);
      assert cs[0] in cs;
    case PackedFile(packed, unpacked, at, board) =>
      PackedMeaning(env, st, top, r, later);
      InstalledOne(env, cs[0], j, v);
    case _ =>
      assert cs[0] in cs;
      InstalledOne(env, cs[0], j, v);
  }

  // ----- the whole list -----

  lemma {:induction false} RulesKeepTidy(env: Env, st: Store, top: int, rules: seq<Rule>)
    requires Tidy(st, top) && (forall r :: r in rules ==> HasData(r)) && AddRules(env.crc, st, rules).Ok?
    ensures var b := AddRules(env.crc, st, rules).value;
            Tidy(b.store, top) && Keeps(st, b.store) && Remembers(st, b.store)
    decreases |rules|
  {
    hide Tidy, AddRule, HasData;
    if rules != [] {
      assert rules[0] in rules;
      RuleKeepsTidy(env, st, top, rules[0]);
      assert forall r :: r in rules[1..] ==> r in rules;
      RulesKeepTidy(env, AddRule(env.crc, st, rules[0]).value.store, top, rules[1..]);
    }
  }

  /** Main result: with the final store in memory, the built list installs what the rules say,
      rule by rule, and verifies exactly when no rule is turned down. */
  lemma {:induction false} RulesInstall(env: Env, st: Store, top: int, rules: seq<Rule>, later: Store, j: nat, v: u8)
    requires Tidy(st, top) && AddRules(env.crc, st, rules).Ok?
    requires forall r :: r in rules ==> HasData(r) && Unpacks(env, r)
    requires Mapped(env, later) && Keeps(AddRules(env.crc, st, rules).value.store, later)
    ensures var cs := AddRules(env.crc, st, rules).value.commands;
            && Installed(env, cs, j, v) == PartByPartAll(env, rules, j, v)
            && ((exists c :: c in cs && Refused(env, c)) <==> (exists r :: r in rules && TurnedDown(env, r)))
    decreases |rules|
  {
    hide Tidy, AddRule, HasData, Unpacks, Mapped, Installed, Refused, TurnedDown, PartByPart;
    if rules == [] {
      NothingInstalled(env, j, v);
    } else {
      var r := rules[0];
      assert r in rules;
      assert forall r :: r in rules <==> r == rules[0] || r in rules[1..];
      RuleKeepsTidy(env, st, top, r);
      var b := AddRule(env.crc, st, r).value;
      RulesKeepTidy(env, b.store, top, rules[1..]);
      var rest := AddRules(env.crc, b.store, rules[1..]).value;
      RuleInstalls(env, st, top, r, later, j, v);
      RulesInstall(env, b.store, top, rules[1..], later, j, PartByPart(env, r, j, v));
      InstalledConcat(env, b.commands, rest.commands, j, v);
      assert forall c :: c in b.commands + rest.commands <==> c in b.commands || c in rest.commands;
    }
  }

  // ----- parts for the microcontroller -----

  /** How many parts a file is sent in. */
  function PartCount(n: nat): (k: nat)
    ensures k >= 1 && (k == 1 <==> n <= MAXIMUM_PART_SIZE)
  {
    if n <= MAXIMUM_PART_SIZE then 1 else 1 + PartCount(n - MAXIMUM_PART_SIZE)
  }

  /** How many parts the rules send to this board's microcontroller. */
  function RuleMcuParts(env: Env, rules: seq<Rule>): nat
    decreases |rules|
  {
    if rules == [] then 0
    else
      (if rules[0].McuFile? && ForBoard(env, rules[0].board) then PartCount(|rules[0].data|) else 0)
      + RuleMcuParts(env, rules[1..])
  }

  lemma {:induction false} McuPartsConcat(env: Env, a: seq<Command>, b: seq<Command>)
    ensures McuParts(env, a + b) == McuParts(env, a) + McuParts(env, b)
    decreases |a|
  {
    hide SendsToMcu;
    if a == [] {
      assert a + b == b;
    } else {
      assert (a + b)[1..] == a[1..] + b;
      McuPartsConcat(env, a[1..], b);
    }
  }

  lemma McuPartsOne(env: Env, c: Command)
    ensures McuParts(env, [c]) == if SendsToMcu(env, c) then 1 else 0
  {
    assert [c][1..] == [];
  }

  lemma {:induction false} FileMcuParts(env: Env, mcu: bool, st: Store, pos: int, data: seq<u8>, board: int)
    requires AddParts(env.crc, mcu, st, pos, data, board).Ok?
    ensures McuParts(env, AddParts(env.crc, mcu, st, pos, data, board).value.commands) ==
            if mcu && (board >= 0x100 || board == env.board) then PartCount(|data|) else 0
    decreases |data|
  {
    hide Placed, Position;
    if |data| <= MAXIMUM_PART_SIZE {
      McuPartsOne(env, AddPart(env.crc, mcu, st, pos, data, board).value.commands[0]);
    } else {
      var d, rest := data[..MAXIMUM_PART_SIZE], data[MAXIMUM_PART_SIZE..];
      var b := AddPart(env.crc, mcu, st, pos, d, board).value;
      var b' := AddParts(env.crc, mcu, b.store, pos + MAXIMUM_PART_SIZE, rest, board).value;
      McuPartsOne(env, b.commands[0]);
      FileMcuParts(env, mcu, b.store, pos + MAXIMUM_PART_SIZE, rest, board);
      McuPartsConcat(env, b.commands, b'.commands);
    }
  }

  lemma RuleMcu(env: Env, st: Store, r: Rule)
    requires AddRule(env.crc, st, r).Ok?
    ensures McuParts(env, AddRule(env.crc, st, r).value.commands) ==
            if r.McuFile? && ForBoard(env, r.board) then PartCount(|r.data|) else 0
  {
    hide Placed, Position, AddParts, Padded;
    var cs := AddRule(env.crc, st, r).value.commands;
    match r
    case FlashFile(data, at, board) =>
      var p := Padded(data, at >= 0);
      FileMcuParts(env, false, st, PlaceAt(at, |p|), p, BoardOf(board));
    case McuFile(data, at, board) => FileMcuParts(env, true, st, at, data, BoardOf(board));
    case _ => McuPartsOne(env, cs[0]);
  }

  /** A built list sends the microcontroller as many parts as its rules' files take. */
  lemma {:induction false} RulesMcu(env: Env, st: Store, rules: seq<Rule>)
    requires AddRules(env.crc, st, rules).Ok?
    ensures McuParts(env, AddRules(env.crc, st, rules).value.commands) == RuleMcuParts(env, rules)
    decreases |rules|
  {
    hide AddRule, ForBoard, SendsToMcu;
    if rules != [] {
      var b := AddRule(env.crc, st, rules[0]).value;
      RuleMcu(env, st, rules[0]);
      RulesMcu(env, b.store, rules[1..]);
      McuPartsConcat(env, b.commands, AddRules(env.crc, b.store, rules[1..]).value.commands);
    }
  }

  lemma NothingInstalled(env: Env, j: nat, v: u8)
    ensures Installed(env, [], j, v) == v
  {
  }

  /** PACKED_FLASH counts back from a negative position by the packed length, so the part ends
      where asked only if packing did not change the length. */
  lemma PackedEndsWhereAskedIff(env: Env, st: Store, r: Rule)
    requires r.PackedFile? && r.at < 0 && AddRule(env.crc, st, r).Ok?
    ensures var c := AddRule(env.crc, st, r).value.commands[0];
            c.address + c.length == -r.at <==> |r.packed| == |r.unpacked|
  {
  }

  /** FLASH counts back by the padded length, so the file ends exactly where asked. */
  lemma FlashEndsWhereAsked(r: Rule)
    requires r.FlashFile? && r.at < 0
    ensures var p := Padded(r.data, false);
            PlaceAt(r.at, |p|) + |p| == -r.at && p[|p| - |r.data|..] == r.data
  {
  }

  /** A FLASH rule for this board is applied as written exactly when its file splits cleanly. */
  lemma PartByPartIsDirectIff(env: Env, r: Rule)
    requires r.FlashFile? ==> ForBoard(env, r.board)
    requires PlacedAsAsked(r)
    ensures (forall j: nat, v: u8 :: PartByPart(env, r, j, v) == Direct(env, r, j, v)) <==> SplitsCleanly(r)
  {
    hide Lost, Flashed, FlashedParts, Padded;
    if r.FlashFile? {
      var p := Padded(r.data, r.at >= 0);
      var pos := PlaceAt(r.at, |p|);
      if pos >= 0 {
        SplitIsDirectIff(pos, p);
        assert forall j: nat, v: u8 ::
          PartByPart(env, r, j, v) == FlashedParts(pos, p, j, v) && Direct(env, r, j, v) == Flashed(pos, p, j, v);
      }
    }
  }

  lemma {:induction false} CleanSplitsAreDirect(env: Env, rules: seq<Rule>, j: nat, v: u8)
    requires forall r :: r in rules ==> AsWritten(r)
    ensures PartByPartAll(env, rules, j, v) == DirectAll(env, rules, j, v)
    decreases |rules|
  {
    if rules != [] {
      var r := rules[0];
      assert r in rules;
      assert PartByPart(env, r, j, v) == Direct(env, r, j, v) by {
        hide Lost, Flashed, FlashedParts, Padded;
        if r.FlashFile? && ForBoard(env, r.board) {
          PartByPartIsDirectIff(env, r);
        }
      }
      hide AsWritten, PartByPart, Direct;
      CleanSplitsAreDirect(env, rules[1..], j, Direct(env, r, j, v));
    }
  }

  /** In particular a file at a sector boundary, or one of a single part, splits cleanly. */
  lemma AlignedSplitsCleanly(r: Rule)
    requires r.FlashFile?
    requires r.at % SECTOR == 0 || |Padded(r.data, r.at >= 0)| <= MAXIMUM_PART_SIZE
    ensures SplitsCleanly(r)
  {
    hide Lost;
    var p := Padded(r.data, r.at >= 0);
    var pos := PlaceAt(r.at, |p|);
    if pos >= 0 {
      assert r.at % SECTOR == 0 ==> pos % SECTOR == 0;
      forall i | 0 <= i < |p| ensures !Lost(pos, |p|, i) {
        AlignedLosesNothing(pos, |p|, i);
      }
    }
  }

  // ----- which bytes survive the rules that follow -----

  /** Does the rule write or erase the byte at `j` on this board? */
  predicate Affects(env: Env, r: Rule, j: nat) {
    WritesFlash(env, r) && Covered(FileAt(r), |FileData(r)|, j)
  }

  /** Is the byte at `j` one of the file's own? */
  predicate InFile(env: Env, r: Rule, j: nat) {
    WritesFlash(env, r) && FileAt(r) <= j < FileAt(r) + |FileData(r)|
  }

  /** What the rule leaves at a byte that it affects: the file's, or a blank one around it. */
  function ByteOf(env: Env, r: Rule, j: nat): u8 {
    if InFile(env, r, j) then FileData(r)[j - FileAt(r)] else 0xFF
  }

  lemma DirectIsLocal(env: Env, r: Rule, j: nat, v: u8)
    ensures Direct(env, r, j, v) == if Affects(env, r, j) then ByteOf(env, r, j) else v
    ensures InFile(env, r, j) ==> Affects(env, r, j)
  {
    hide FileData, FileAt;
    if WritesFlash(env, r) {
      InsideIsCovered(FileAt(r), |FileData(r)|, j);
    }
  }

  /** Rule `i` is the last one that affects the byte at `j`. */
  predicate IsLast(env: Env, rules: seq<Rule>, i: nat, j: nat)
    requires i < |rules|
  {
    Affects(env, rules[i], j) && forall k :: i < k < |rules| ==> !Affects(env, rules[k], j)
  }

  /** The last rule that affects a byte decides it; a byte that no rule affects keeps its value. */
  lemma {:induction false} LastRuleDecides(env: Env, rules: seq<Rule>, j: nat, v: u8)
    ensures (forall r :: r in rules ==> !Affects(env, r, j)) ==> DirectAll(env, rules, j, v) == v
    ensures forall i :: 0 <= i < |rules| && IsLast(env, rules, i, j) ==>
              DirectAll(env, rules, j, v) == ByteOf(env, rules[i], j)
    decreases |rules|
  {
    hide Affects, Direct, ByteOf;
    if rules != [] {
      var rest, w := rules[1..], Direct(env, rules[0], j, v);
      DirectIsLocal(env, rules[0], j, v);
      LastRuleDecides(env, rest, j, w);
      assert rules[0] in rules && forall r :: r in rest ==> r in rules;
      forall i | 0 <= i < |rules| && IsLast(env, rules, i, j)
        ensures DirectAll(env, rules, j, v) == ByteOf(env, rules[i], j)
      {
        if i == 0 {
          assert forall r :: r in rest ==> exists k :: 0 < k < |rules| && rules[k] == r;
        } else {
          assert forall k :: i <= k < |rules| ==> rules[k] == rest[k - 1];
          assert IsLast(env, rest, i - 1, j);
        }
      }
    }
  }

  lemma {:induction false} SomeRuleIsLast(env: Env, rules: seq<Rule>, i: nat, j: nat) returns (m: nat)
    requires i < |rules| && Affects(env, rules[i], j)
    ensures i <= m < |rules| && IsLast(env, rules, m, j)
    decreases |rules| - i
  {
    hide Affects;
    if k :| i < k < |rules| && Affects(env, rules[k], j) {
      m := SomeRuleIsLast(env, rules, k, j);
    } else {
      m := i;
    }
  }

  /** The bytes of the file of rule `i` are all in place once every rule has been applied. */
  ghost predicate Survives(env: Env, rules: seq<Rule>, i: nat, v: u8)
    requires i < |rules|
  {
    forall j: nat :: InFile(env, rules[i], j) ==> DirectAll(env, rules, j, v) == ByteOf(env, rules[i], j)
  }

  /** Main result: a file survives the rules after it if and only if each of its bytes agrees
      with the last of them to affect it, which wants the same byte there or blanks a 0xFF. */
  lemma FileSurvivesIff(env: Env, rules: seq<Rule>, i: nat, v: u8)
    requires i < |rules|
    ensures Survives(env, rules, i, v) <==>
              forall m, j: nat :: i < m < |rules| && InFile(env, rules[i], j) && IsLast(env, rules, m, j) ==>
                ByteOf(env, rules[m], j) == ByteOf(env, rules[i], j)
  {
    hide Affects, Direct, DirectAll, ByteOf, InFile, IsLast;
    forall m, j: nat | i < m < |rules| && InFile(env, rules[i], j) && IsLast(env, rules, m, j)
      ensures DirectAll(env, rules, j, v) == ByteOf(env, rules[m], j)
    {
      LastRuleDecides(env, rules, j, v);
    }
    if forall m, j: nat :: i < m < |rules| && InFile(env, rules[i], j) && IsLast(env, rules, m, j) ==>
         ByteOf(env, rules[m], j) == ByteOf(env, rules[i], j) {
      forall j: nat | InFile(env, rules[i], j) ensures DirectAll(env, rules, j, v) == ByteOf(env, rules[i], j) {
        DirectIsLocal(env, rules[i], j, v);
        var m := SomeRuleIsLast(env, rules, i, j);
        LastRuleDecides(env, rules, j, v);
      }
    }
  }

  /** Packed files are not padded: one that starts in the sector where another ends blanks it. */
  lemma PackedNeighbourIsBlanked(env: Env, a: Rule, b: Rule, j: nat, v: u8)
    requires a.PackedFile? && b.PackedFile? && WritesFlash(env, a) && WritesFlash(env, b)
    requires FileAt(a) + |FileData(a)| == FileAt(b) && FileData(b) != []
    requires InFile(env, a, j) && j / SECTOR == FileAt(b) / SECTOR
    ensures DirectAll(env, [a, b], j, v) == 0xFF
  {
    hide FileAt, FileData;
    assert [a, b][1..] == [b] && [b][1..] == [];
    assert Covered(FileAt(b), |FileData(b)|, j);
    var w := Direct(env, a, j, v);
    assert DirectAll(env, [b], j, w) == Direct(env, b, j, w);
  }
}
