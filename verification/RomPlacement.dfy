// What the builder makes of each rule, in plain numbers: which rules it accepts, where the
// parts of a file go, and what the flash then holds there.
// software/userland/manifest_to_rom.py

module RomPlacement {
  import opened Words
  import opened NorFlash
  import opened UpdateManifest
  import opened WriteLock
  import opened UpdaterSpec
  import opened UpdateEffect
  import opened UpdateCompletes
  import opened CrashSafety
  import DowngradeGuard
  import opened RomStore
  import opened RomRules
  import opened RomMeaning
  import opened RomImage
  import opened RomRoundTrip

  // ----- the parts of a file -----

  /** Piece `k` of a file sent 48 KiB at a time. */
  function Piece(file: seq<u8>, k: nat): seq<u8>
    requires k * 49152 <= |file|
  {
    if (k + 1) * 49152 < |file| then file[k * 49152..(k + 1) * 49152] else file[k * 49152..]
  }

  lemma PieceShifts(file: seq<u8>, k: nat)
    requires |file| > 49152 && k * 49152 <= |file| - 49152
    ensures Piece(file[49152..], k) == Piece(file, k + 1)
  {
    var rest := file[49152..];
    var from, to := k * 49152, if (k + 1) * 49152 < |rest| then (k + 1) * 49152 else |rest|;
    assert rest[from..to] == file[from + 49152..to + 49152];
  }

  lemma FirstPiece(file: seq<u8>)
    ensures Piece(file, 0) == if |file| <= 49152 then file else file[..49152]
  {
  }

  /** Part `k` of a file sent out from address `at` on, with nothing packed. */
  ghost predicate IsPartOf(crc: seq<u8> -> u16, c: Command, k: nat, mcu: bool, at: int, file: seq<u8>, board: int) {
    && k * 49152 <= |file|
    && (if mcu then c.McuPart? else c.FlashPart?) && !c.packed
    && c.address == at + k * 49152 && c.board == board
    && c.length == |Piece(file, k)| && c.crc == crc(Piece(file, k))
  }

  /** The commands carry the whole file, in order, and none is empty unless the file is. */
  ghost predicate InParts(crc: seq<u8> -> u16, cs: seq<Command>, mcu: bool, at: int, file: seq<u8>, board: int) {
    && (|cs| > 1 ==> (|cs| - 1) * 49152 < |file|) && cs != [] && |file| <= |cs| * 49152
    && forall k :: 0 <= k < |cs| ==> IsPartOf(crc, cs[k], k, mcu, at, file, board)
  }

  lemma {:induction false} FileInParts(crc: seq<u8> -> u16, mcu: bool, st: Store, pos: int, data: seq<u8>, board: int)
    requires AddParts(crc, mcu, st, pos, data, board).Ok?
    ensures InParts(crc, AddParts(crc, mcu, st, pos, data, board).value.commands, mcu, pos, data, board)
    decreases |data|
  {
    hide Placed, Position, Piece;
    var cs := AddParts(crc, mcu, st, pos, data, board).value.commands;
    FirstPiece(data);
    if |data| > MAXIMUM_PART_SIZE {
      var d, rest := data[..49152], data[49152..];
      var b := AddPart(crc, mcu, st, pos, d, board).value;
      var tail := AddParts(crc, mcu, b.store, pos + 49152, rest, board).value.commands;
      FileInParts(crc, mcu, b.store, pos + 49152, rest, board);
      assert cs == [b.commands[0]] + tail;
      forall k | 0 <= k < |cs| ensures IsPartOf(crc, cs[k], k, mcu, pos, data, board) {
        if k > 0 {
          assert cs[k] == tail[k - 1];
          assert IsPartOf(crc, tail[k - 1], k - 1, mcu, pos + 49152, rest, board);
          PieceShifts(data, k - 1);
        }
      }
    }
  }

  /** The board field: the rule's revision, or one that every board takes. */
  predicate LimitedTo(board: Option<int>, field: int) {
    match board
    case None => field == 0xFFFF
    case Some(revision) => field == revision
  }

  /** Main result: FLASH pads its file with 0xFF bytes to whole 4 KiB sectors and sends it in
      parts from AT on, or so that its last part ends where a negative AT says. */
  lemma FlashRuleIsPlaced(crc: seq<u8> -> u16, st: Store, r: Rule) returns (file: seq<u8>, field: int)
    requires r.FlashFile? && AddRule(crc, st, r).Ok?
    ensures LimitedTo(r.board, field)
    ensures |file| % 4096 == 0 && |r.data| <= |file| < |r.data| + 4096
    ensures r.at >= 0 ==> file[..|r.data|] == r.data && forall i :: |r.data| <= i < |file| ==> file[i] == 0xFF
    ensures r.at < 0 ==>
              file[|file| - |r.data|..] == r.data && forall i :: 0 <= i < |file| - |r.data| ==> file[i] == 0xFF
    ensures var cs := AddRule(crc, st, r).value.commands;
            InParts(crc, cs, false, if r.at >= 0 then r.at else -r.at - |file|, file, field)
  {
    hide AddParts, InParts;
    file, field := Padded(r.data, r.at >= 0), BoardOf(r.board);
    FileInParts(crc, false, st, PlaceAt(r.at, |file|), file, field);
  }

  /** MCU_FLASH sends its file in parts from AT on, as it is. */
  lemma McuRuleIsPlaced(crc: seq<u8> -> u16, st: Store, r: Rule) returns (field: int)
    requires r.McuFile? && AddRule(crc, st, r).Ok?
    ensures LimitedTo(r.board, field)
    ensures InParts(crc, AddRule(crc, st, r).value.commands, true, r.at, r.data, field)
  {
    hide AddParts, InParts;
    field := BoardOf(r.board);
    FileInParts(crc, true, st, r.at, r.data, field);
  }

  /** PACKED_FLASH sends one part, named by its unpacked bytes; the other rules one command. */
  lemma OtherRulesArePlaced(crc: seq<u8> -> u16, st: Store, r: Rule)
    requires !r.FlashFile? && !r.McuFile? && AddRule(crc, st, r).Ok?
    ensures var cs := AddRule(crc, st, r).value.commands;
            |cs| == 1 &&
            match r
            case PackedFile(packed, unpacked, at, board) =>
              && cs[0].FlashPart? && cs[0].packed && LimitedTo(board, cs[0].board)
              && cs[0].address == (if at >= 0 then at else -at - |packed|)
              && cs[0].length == |unpacked| && cs[0].crc == crc(unpacked)
            case Start(at) => cs[0].StartManifest? && cs[0].address == at
            case Finish(at) => cs[0].FinishManifest? && cs[0].address == at
            case CheckRange(from, to) => cs[0].CheckBoardRange? && cs[0].min == from && cs[0].max == to
            case _ => true
  {
  }

  // ----- which rules are accepted -----

  predicate BoardFits(board: Option<int>) {
    board.Some? ==> 0 <= board.value < 0x1_0000
  }

  /** The first and the last of the parts of `n` bytes have 32-bit addresses. */
  predicate AddressesFit(at: int, n: nat) {
    0 <= at && at + (if n == 0 then 0 else (n - 1) / 49152 * 49152) < 0x1_0000_0000
  }

  /** `n` bytes in whole sectors. */
  function InSectors(n: nat): nat {
    (n + 4095) / 4096 * 4096
  }

  /** The exception a rule raises, if there is room for its file. */
  function Verdict(r: Rule): Option<BuildError> {
    match r
    case Start(at) => if 0 <= at < 0x1_0000_0000 then None else Some(OutOfRange)
    case Finish(at) => if 0 <= at < 0x1_0000_0000 then None else Some(OutOfRange)
    case CheckRange(from, to) => if 0 <= from < 0x1_0000 && 0 <= to < 0x1_0000 then None else Some(OutOfRange)
    case FlashFile(data, at, board) =>
      var n := InSectors(|data|);
      if at % 0x100 != 0 then Some(Unaligned)
      else if AddressesFit(if at >= 0 then at else -at - n, n) && BoardFits(board) then None
      else Some(OutOfRange)
    case PackedFile(packed, unpacked, at, board) =>
      var first := if at >= 0 then at else -at - |packed|;
      if |unpacked| > 65535 then Some(TooLarge)
      else if first % 0x100 != 0 then Some(Unaligned)
      else if 0 <= first < 0x1_0000_0000 && BoardFits(board) then None
      else Some(OutOfRange)
    case McuFile(data, at, board) =>
      if at % 0x800 != 0 then Some(Unaligned)
      else if AddressesFit(at, |data|) && BoardFits(board) then None
      else Some(OutOfRange)
  }

  /** The 16-byte segments that a rule's file takes at most. */
  function Room(r: Rule): nat {
    match r
    case FlashFile(data, _, _) => InSectors(|data|) / 16
    case PackedFile(packed, _, _, _) => (|packed| + 15) / 16
    case McuFile(data, _, _) => (|data| + 15) / 16
    case _ => 0
  }

  function RoomOfAll(rules: seq<Rule>): nat {
    if rules == [] then 0 else Room(rules[0]) + RoomOfAll(rules[1..])
  }

  /** Every block the builder knows of lies between its first free segment and the program. */
  ghost predicate Within(st: Store) {
    st.start <= 0xFFFF && forall d :: d in st.cache ==> st.start <= st.cache[d] <= 0xFFFF
  }

  lemma PlaceKeepsWithin(st: Store, data: seq<u8>)
    requires Within(st) && (|data| + 15) / 16 <= st.start
    ensures Within(Placed(st, data)) && Placed(st, data).start >= st.start - (|data| + 15) / 16
    ensures 0 <= Position(st, data) <= 0xFFFF
  {
  }

  lemma {:induction false} PartsVerdict(crc: seq<u8> -> u16, mcu: bool, st: Store, pos: int, data: seq<u8>, board: int)
    requires Within(st) && (|data| + 15) / 16 <= st.start
    ensures match AddParts(crc, mcu, st, pos, data, board)
            case Err(e) =>
              if pos % (if mcu then 0x800 else 0x100) != 0 then e == Unaligned
              else e == OutOfRange && !(AddressesFit(pos, |data|) && 0 <= board < 0x1_0000)
            case Ok(b) =>
              && pos % (if mcu then 0x800 else 0x100) == 0 && AddressesFit(pos, |data|) && 0 <= board < 0x1_0000
              && Within(b.store) && b.store.start >= st.start - (|data| + 15) / 16
    decreases |data|
  {
    hide Within, Placed, Position;
    if |data| <= MAXIMUM_PART_SIZE {
      PlaceKeepsWithin(st, data);
    } else {
      var d, rest := data[..49152], data[49152..];
      PlaceKeepsWithin(st, d);
      var first := AddPart(crc, mcu, st, pos, d, board);
      if first.Ok? {
        PartsVerdict(crc, mcu, first.value.store, pos + 49152, rest, board);
      }
    }
  }

  lemma RuleVerdict(crc: seq<u8> -> u16, st: Store, r: Rule)
    requires Within(st) && Room(r) <= st.start
    ensures match AddRule(crc, st, r)
            case Err(e) => Verdict(r) == Some(e)
            case Ok(b) => Verdict(r) == None && Within(b.store) && b.store.start >= st.start - Room(r)
  {
    hide Within, AddParts, Placed, Position, AddressesFit;
    match r
    case FlashFile(data, at, board) =>
      var p := Padded(data, at >= 0);
      assert |p| == InSectors(|data|);
      var pos := PlaceAt(at, |p|);
      assert pos % 0x100 == 0 <==> at % 0x100 == 0 by {
        if at < 0 {
          Opposite(at, |p|);
        }
      }
      PartsVerdict(crc, false, st, pos, p, BoardOf(board));
    case McuFile(data, at, board) => PartsVerdict(crc, true, st, at, data, BoardOf(board));
    case PackedFile(packed, _, _, _) => PlaceKeepsWithin(st, packed);
    case _ =>
  }

  lemma Opposite(at: int, n: nat)
    requires n % 4096 == 0
    ensures (-at - n) % 0x100 == 0 <==> at % 0x100 == 0
  {
    var q := n / 4096;
    assert n == q * 16 * 0x100;
    assert (-at - n) % 0x100 == (-at) % 0x100;
  }

  /** Main result: with room for the files, the builder accepts a list exactly when every rule is
      acceptable, and otherwise stops with the exception of the first that is not. */
  lemma {:induction false} ListVerdict(crc: seq<u8> -> u16, st: Store, rules: seq<Rule>)
    requires Within(st) && RoomOfAll(rules) <= st.start
    ensures match AddRules(crc, st, rules)
            case Ok(_) => forall r :: r in rules ==> Verdict(r) == None
            case Err(e) =>
              exists k :: 0 <= k < |rules| && Verdict(rules[k]) == Some(e)
                          && forall m :: 0 <= m < k ==> Verdict(rules[m]) == None
    decreases |rules|
  {
    hide Within, AddRule, Verdict, Room;
    if rules != [] {
      RuleVerdict(crc, st, rules[0]);
      var first := AddRule(crc, st, rules[0]);
      if first.Err? {
        assert Verdict(rules[0]) == Some(first.error);
      } else {
        ListVerdict(crc, first.value.store, rules[1..]);
        var rest := AddRules(crc, first.value.store, rules[1..]);
        if rest.Err? {
          var k :| 0 <= k < |rules[1..]| && Verdict(rules[1..][k]) == Some(rest.error)
                   && forall m :: 0 <= m < k ==> Verdict(rules[1..][m]) == None;
          assert rules[k + 1] == rules[1..][k];
          forall m | 0 <= m < k + 1 ensures Verdict(rules[m]) == None {
            if m > 0 {
              assert rules[m] == rules[1..][m - 1];
            }
          }
        } else {
          assert forall r :: r in rules ==> r == rules[0] || r in rules[1..];
        }
      }
    }
  }

  // ----- rules and commands of a whole list -----

  /** The commands of rule `i` stand together in the list, before those of later rules. */
  lemma {:induction false} RuleIsBuilt(crc: seq<u8> -> u16, st: Store, rules: seq<Rule>, i: nat)
    returns (s: Store, n: nat)
    requires AddRules(crc, st, rules).Ok? && i < |rules|
    ensures AddRule(crc, s, rules[i]).Ok?
    ensures var all, own := AddRules(crc, st, rules).value.commands, AddRule(crc, s, rules[i]).value.commands;
            n + |own| <= |all| && all[n..n + |own|] == own
    ensures var rest := AddRules(crc, AddRule(crc, s, rules[i]).value.store, rules[i + 1..]);
            && rest.Ok?
            && AddRules(crc, st, rules).value.commands[n + |AddRule(crc, s, rules[i]).value.commands|..]
               == rest.value.commands
    decreases |rules|
  {
    hide AddRule;
    var first := AddRule(crc, st, rules[0]).value;
    if i == 0 {
      s, n := st, 0;
    } else {
      s, n := RuleIsBuilt(crc, first.store, rules[1..], i - 1);
      assert rules[1..][i..] == rules[i + 1..];
      n := n + |first.commands|;
    }
  }

  /** The rule behind a START or FINISH command. */
  lemma {:induction false} ManifestRule(crc: seq<u8> -> u16, st: Store, rules: seq<Rule>, c: Command) returns (i: nat)
    requires AddRules(crc, st, rules).Ok? && c in AddRules(crc, st, rules).value.commands && IsBookkeeping(c)
    ensures i < |rules| && rules[i] == if c.StartManifest? then Start(c.address) else Finish(c.address)
    decreases |rules|
  {
    hide AddParts, AddPacked, Padded, InParts;
    var first := AddRule(crc, st, rules[0]).value;
    if c in first.commands {
      PartsAreNoManifests(crc, st, rules[0], c);
      i := 0;
    } else {
      i := ManifestRule(crc, first.store, rules[1..], c);
      i := i + 1;
    }
  }

  lemma PartsAreNoManifests(crc: seq<u8> -> u16, st: Store, r: Rule, c: Command)
    requires AddRule(crc, st, r).Ok? && c in AddRule(crc, st, r).value.commands && IsBookkeeping(c)
    ensures r == if c.StartManifest? then Start(c.address) else Finish(c.address)
  {
    hide AddRule, AddParts;
    if r.FlashFile? {
      var file, field := FlashRuleIsPlaced(crc, st, r);
      assert false;
    } else if r.McuFile? {
      var field := McuRuleIsPlaced(crc, st, r);
      assert false;
    } else {
      OtherRulesArePlaced(crc, st, r);
    }
  }

  lemma {:induction false} AddressConcat(address: nat, a: seq<Command>, b: seq<Command>)
    ensures VersionAddress(address, a + b) == VersionAddress(VersionAddress(address, a), b)
    decreases |a|
  {
    if a == [] {
      assert a + b == b;
    } else {
      assert (a + b)[1..] == a[1..] + b;
      AddressConcat(if a[0].StartManifest? then a[0].address else address, a[1..], b);
    }
  }

  lemma RuleAddress(crc: seq<u8> -> u16, st: Store, r: Rule, address: nat)
    requires AddRule(crc, st, r).Ok?
    ensures VersionAddress(address, AddRule(crc, st, r).value.commands) == if r.Start? then r.at else address
  {
    hide AddParts, AddPacked, Padded;
    var cs := AddRule(crc, st, r).value.commands;
    if r.Start? {
      assert cs[1..] == [];
    } else {
      forall c | c in cs ensures !c.StartManifest? {
        if c.StartManifest? {
          PartsAreNoManifests(crc, st, r, c);
          assert false;
        }
      }
      DowngradeGuard.NoMoreStarts(address, cs);
    }
  }

  /** The updater compares versions with the manifest that the last START rule names. */
  lemma {:induction false} LastStartRule(crc: seq<u8> -> u16, st: Store, rules: seq<Rule>, address: nat)
    requires AddRules(crc, st, rules).Ok?
    ensures var last := VersionAddress(address, AddRules(crc, st, rules).value.commands);
            && ((forall r :: r in rules ==> !r.Start?) ==> last == address)
            && (forall i :: 0 <= i < |rules| && rules[i].Start? && (forall k :: i < k < |rules| ==> !rules[k].Start?) ==>
                  last == rules[i].at)
    decreases |rules|
  {
    hide AddRule;
    if rules != [] {
      var first, tail := AddRule(crc, st, rules[0]).value, rules[1..];
      var rest := AddRules(crc, first.store, tail).value.commands;
      var next := VersionAddress(address, first.commands);
      RuleAddress(crc, st, rules[0], address);
      AddressConcat(address, first.commands, rest);
      LastStartRule(crc, first.store, tail, next);
      assert rules[0] in rules && forall r :: r in tail ==> r in rules;
      forall i | 0 <= i < |rules| && rules[i].Start? && (forall k :: i < k < |rules| ==> !rules[k].Start?)
        ensures VersionAddress(next, rest) == rules[i].at
      {
        assert forall k :: i < k < |rules| ==> rules[k] == tail[k - 1];
        if i > 0 {
          assert tail[i - 1] == rules[i];
          assert forall k :: i - 1 < k < |tail| ==> tail[k] == rules[k + 1];
        }
      }
    }
  }

  // ----- the flash after an update -----

  /** Rules that name no board revision, or none that fits a register, are for every board. */
  predicate MeantFor(board: Option<int>, revision: int) {
    board == None || board.value >= 256 || board.value == revision
  }

  /** No START or FINISH rule names the sector of the byte at `j`. */
  predicate OutsideManifests(rules: seq<Rule>, j: nat) {
    forall r :: r in rules && (r.Start? || r.Finish?) ==> r.at / 4096 != j / 4096
  }

  /** The byte at `j` can be written: it is above the lower 256 KiB, or those are not locked, or
      the list starts no manifest, or the last one in the lower 256 KiB. */
  predicate Writable(env: Env, rules: seq<Rule>, j: nat) {
    || j >= 0x4_0000
    || !env.locked
    || forall i :: 0 <= i < |rules| && rules[i].Start? && (forall k :: i < k < |rules| ==> !rules[k].Start?) ==>
         rules[i].at < 0x4_0000
  }

  lemma WritableIsUnprotected(env: Env, st: Store, rules: seq<Rule>, j: nat)
    requires AddRules(env.crc, st, rules).Ok? && Writable(env, rules, j)
    ensures !Protected(Opened(env, AddRules(env.crc, st, rules).value.commands), j)
  {
    hide AddRules;
    LastStartRule(env.crc, st, rules, 0);
    if r :| r in rules && r.Start? {
      var i := LastStartIn(rules, r);
    }
  }

  lemma {:induction false} LastStartIn(rules: seq<Rule>, r: Rule) returns (i: nat)
    requires r in rules && r.Start?
    ensures i < |rules| && rules[i].Start? && forall k :: i < k < |rules| ==> !rules[k].Start?
    decreases |rules|
  {
    if s :| s in rules[1..] && s.Start? {
      i := LastStartIn(rules[1..], s);
      i := i + 1;
      assert forall k :: i < k < |rules| ==> rules[k] == rules[1..][k - 1];
    } else {
      i := 0;
      assert forall k :: 0 < k < |rules| ==> rules[k] in rules[1..];
    }
  }

  lemma OutsideAsWell(env: Env, st: Store, rules: seq<Rule>, j: nat)
    requires AddRules(env.crc, st, rules).Ok? && OutsideManifests(rules, j)
    ensures !InManifest(env, AddRules(env.crc, st, rules).value.commands, j)
  {
    hide AddRules;
    var cs := AddRules(env.crc, st, rules).value.commands;
    if c :| c in cs && IsBookkeeping(c) && Reaches(env, c, j) {
      var i := ManifestRule(env.crc, st, rules, c);
      assert rules[i] in rules;
    }
  }

  /** A survivor is in place whatever the flash held before. */
  lemma SurvivorIsInPlace(env: Env, rules: seq<Rule>, i: nat, j: nat, v: u8, w: u8)
    requires i < |rules| && Survives(env, rules, i, v) && InFile(env, rules[i], j)
    ensures DirectAll(env, rules, j, w) == ByteOf(env, rules[i], j)
  {
    hide Affects, Direct, DirectAll, ByteOf, InFile;
    DirectIsLocal(env, rules[i], j, v);
    var m := SomeRuleIsLast(env, rules, i, j);
    LastRuleDecides(env, rules, j, v);
    LastRuleDecides(env, rules, j, w);
  }

  /** The bytes of a surviving file are in the flash, where they can be written. */
  lemma FileIsInPlace(env: Env, f: seq<u8>, img: seq<u8>, base: seq<u8>, header: Version, rules: seq<Rule>,
                      b: Built, i: nat, j: nat)
    requires Build(env, img, base, header, rules, b) && !Boot(env, f).halted
    requires forall r :: r in rules ==> AsWritten(r)
    requires i < |rules| && Survives(env, rules, i, 0) && InFile(env, rules[i], j)
    requires j < |f| && OutsideManifests(rules, j) && Writable(env, rules, j)
    ensures Apply(f, Boot(env, f).ops)[j] == ByteOf(env, rules[i], j)
  {
    hide Boot, AddRules, AsWritten, Sound, InConsole, Opened, OutsideManifests, Writable, InManifest, Apply,
         LocksAgree, Protected, DirectAll, InFile, ByteOf, Survives;
    WritableIsUnprotected(env, Empty(Top(base)), rules, j);
    OutsideAsWell(env, Empty(Top(base)), rules, j);
    UpdateAppliesRules(env, f, img, base, header, rules, b, j);
    SurvivorIsInPlace(env, rules, i, j, 0, f[j]);
  }

  lemma PartsStartAbove(crc: seq<u8> -> u16, mcu: bool, st: Store, pos: int, data: seq<u8>, board: int)
    requires AddParts(crc, mcu, st, pos, data, board).Ok?
    ensures pos >= 0
  {
    hide Placed, Position;
  }

  lemma RuleStartsAbove(env: Env, st: Store, r: Rule)
    requires AddRule(env.crc, st, r).Ok? && PlacedAsAsked(r)
    requires (r.FlashFile? || r.PackedFile?) && MeantFor(r.board, env.board)
    ensures WritesFlash(env, r)
  {
    hide AddParts, Padded, Placed, Position;
    if r.FlashFile? {
      var p := Padded(r.data, r.at >= 0);
      PartsStartAbove(env.crc, false, st, PlaceAt(r.at, |p|), p, BoardOf(r.board));
    }
  }

  lemma FileStartsAbove(env: Env, st: Store, rules: seq<Rule>, i: nat)
    requires AddRules(env.crc, st, rules).Ok? && i < |rules| && AsWritten(rules[i])
    requires (rules[i].FlashFile? || rules[i].PackedFile?) && MeantFor(rules[i].board, env.board)
    ensures WritesFlash(env, rules[i])
  {
    hide AddRules, AddRule, SplitsCleanly, PlacedAsAsked, WritesFlash, MeantFor;
    var s, n := RuleIsBuilt(env.crc, st, rules, i);
    RuleStartsAbove(env, s, rules[i]);
  }

  /** Main result: after a completed update, a FLASH file that survives the rules after it is in
      the flash from AT on, or up to where a negative AT says, wherever it can be written. */
  lemma FlashFileIsInPlace(env: Env, f: seq<u8>, img: seq<u8>, base: seq<u8>, header: Version, rules: seq<Rule>,
                           b: Built, i: nat, k: nat)
    requires Build(env, img, base, header, rules, b) && !Boot(env, f).halted
    requires forall r :: r in rules ==> AsWritten(r)
    requires i < |rules| && rules[i].FlashFile? && MeantFor(rules[i].board, env.board)
    requires k < |rules[i].data| && Survives(env, rules, i, 0)
    ensures var at := rules[i].at;
            var j := if at >= 0 then at + k else -at - |rules[i].data| + k;
            && j >= 0
            && (j < |f| && OutsideManifests(rules, j) && Writable(env, rules, j) ==>
                  Apply(f, Boot(env, f).ops)[j] == rules[i].data[k])
  {
    hide Boot, AddRules, AsWritten, Sound, InConsole, OutsideManifests, Writable, Apply, Survives;
    var r := rules[i];
    FileStartsAbove(env, Empty(Top(base)), rules, i);
    var j := if r.at >= 0 then r.at + k else -r.at - |r.data| + k;
    assert InFile(env, r, j) && ByteOf(env, r, j) == r.data[k];
    if j < |f| && OutsideManifests(rules, j) && Writable(env, rules, j) {
      FileIsInPlace(env, f, img, base, header, rules, b, i, j);
    }
  }

  /** And so is a PACKED_FLASH file, unpacked; one at a negative AT only if packing kept its length. */
  lemma PackedFileIsInPlace(env: Env, f: seq<u8>, img: seq<u8>, base: seq<u8>, header: Version, rules: seq<Rule>,
                            b: Built, i: nat, k: nat)
    requires Build(env, img, base, header, rules, b) && !Boot(env, f).halted
    requires forall r :: r in rules ==> AsWritten(r)
    requires i < |rules| && rules[i].PackedFile? && MeantFor(rules[i].board, env.board)
    requires k < |rules[i].unpacked| && Survives(env, rules, i, 0)
    ensures var at := rules[i].at;
            var j := if at >= 0 then at + k else -at - |rules[i].unpacked| + k;
            && j >= 0
            && (j < |f| && OutsideManifests(rules, j) && Writable(env, rules, j) ==>
                  Apply(f, Boot(env, f).ops)[j] == rules[i].unpacked[k])
  {
    hide Boot, AddRules, AsWritten, Sound, InConsole, OutsideManifests, Writable, Apply, Survives;
    var r := rules[i];
    FileStartsAbove(env, Empty(Top(base)), rules, i);
    var j := if r.at >= 0 then r.at + k else -r.at - |r.unpacked| + k;
    assert InFile(env, r, j) && ByteOf(env, r, j) == r.unpacked[k];
    if j < |f| && OutsideManifests(rules, j) && Writable(env, rules, j) {
      FileIsInPlace(env, f, img, base, header, rules, b, i, j);
    }
  }

  /** The manifest that a last FINISH names holds the update's version, with a zero in byte 11,
      its partial_install. */
  lemma FinishRuleSeals(env: Env, f: seq<u8>, img: seq<u8>, base: seq<u8>, header: Version, rules: seq<Rule>,
                        b: Built, i: nat, k: nat)
    requires Build(env, img, base, header, rules, b) && !Boot(env, f).halted
    requires Apart(env, b.commands) && Paired(b.commands)
    requires forall c :: c in b.commands ==> Fits(env, f, c)
    requires i < |rules| && rules[i].Finish? && k < 64
    requires forall m :: i < m < |rules| ==> rules[m] != Start(rules[i].at)
    ensures var j := rules[i].at + k;
            0 <= j < |f| && Apply(f, Boot(env, f).ops)[j] == if k == 11 then 0 else header[k]
  {
    hide Boot, AddRules, AddRule, Sound, InConsole, Apart, Paired, Apply, Fits;
    var cs, st := b.commands, Empty(Top(base));
    var s, n := RuleIsBuilt(env.crc, st, rules, i);
    OtherRulesArePlaced(env.crc, s, rules[i]);
    var own := AddRule(env.crc, s, rules[i]).value;
    assert cs[n] == cs[n..n + 1][0] == FinishManifest(rules[i].at);
    forall m | n < m < |cs| && cs[m].StartManifest? ensures cs[m].address != rules[i].at {
      assert cs[m] == cs[n + 1..][m - (n + 1)];
      var x := ManifestRule(env.crc, own.store, rules[i + 1..], cs[m]);
      assert rules[i + 1 + x] == rules[i + 1..][x];
    }
    UpdateSealsManifests(env, f, img, base, header, rules, b, n);
    assert cs[n] in cs && Fits(env, f, cs[n]);
    FitsFinish(env, f, cs[n]);
    BlockByte(Apply(f, Boot(env, f).ops), header, rules[i].at, 0, k);
  }

  lemma FitsFinish(env: Env, f: seq<u8>, c: Command)
    requires c.FinishManifest? && Fits(env, f, c)
    ensures c.address + 64 <= |f|
  {
  }

  /** An update that goes ahead runs on a board in the range of every CHECK_BOARD_REVISION_RANGE. */
  lemma CheckRangeGuards(env: Env, f: seq<u8>, img: seq<u8>, base: seq<u8>, header: Version, rules: seq<Rule>,
                         b: Built, i: nat)
    requires Build(env, img, base, header, rules, b) && i < |rules| && rules[i].CheckRange?
    ensures Boot(env, f).ops != [] || !Boot(env, f).halted ==> rules[i].from <= env.board <= rules[i].to
  {
    hide AddRules, AddRule, Sound, InConsole, Pass;
    BootRunsBuiltList(env, f, img, base, b.store, header, b.commands);
    var s, n := RuleIsBuilt(env.crc, Empty(Top(base)), rules, i);
    OtherRulesArePlaced(env.crc, s, rules[i]);
    assert b.commands[n] == b.commands[n..n + 1][0];
    VerifyPassIsDry(env, f, header, b.commands);
    if !(rules[i].from <= env.board <= rules[i].to) {
      assert b.commands[n] in b.commands && Refused(env, b.commands[n]);
    }
  }

  /** The rule can be carried out on this machine: manifests at 4 KiB sectors, the board in range,
      and a microcontroller that restarts if it is sent anything. */
  predicate SuitsMachine(env: Env, r: Rule) {
    match r
    case Start(at) => at % 4096 == 0
    case Finish(at) => at % 4096 == 0
    case CheckRange(from, to) => from <= env.board <= to
    case McuFile(_, _, board) => MeantFor(board, env.board) ==> env.mcuRestarts
    case _ => true
  }

  /** Main result: with manifests clear of data, every finish started and everything on the chip, the
      update runs to its end if and only if its list has at most 512 bytes, its version block is
      marked and not older than the one installed where its last START above 0x40000 points, every
      rule agrees with the machine, at most one part goes to the microcontroller, and what the list
      compares in a locked area is in place. */
  lemma UpdateEndsIff(env: Env, f: seq<u8>, img: seq<u8>, base: seq<u8>, header: Version, rules: seq<Rule>, b: Built,
                      installed: Version)
    requires Build(env, img, base, header, rules, b)
    requires Apart(env, b.commands) && Paired(b.commands)
    requires forall c :: c in b.commands ==> Fits(env, f, c)
    requires forall k :: 0 <= k < 64 ==>
               var j := VersionAddress(0, b.commands) + k;
               installed[k] == if j < |f| then f[j] else 0xFF
    ensures !Boot(env, f).halted <==>
              && |RuleList(header, b.commands)| <= 512
              && DowngradeGuard.IsMarked(header)
              && !(VersionAddress(0, b.commands) >= 0x4_0000 && DowngradeGuard.IsMarked(installed)
                   && DowngradeGuard.Release(header) < DowngradeGuard.Release(installed))
              && (forall r :: r in rules ==> SuitsMachine(env, r))
              && RuleMcuParts(env, rules) <= 1
              && LocksAgree(Opened(env, b.commands), f, header, b.commands)
  {
    hide Boot, AddRules, Sound, InConsole, Apart, Paired, Fits, RuleList, LocksAgree, RuleMcuParts, TurnedDown,
         SuitsMachine;
    assert installed == ReadFlash(f, VersionAddress(0, b.commands), VERSION_SIZE);
    UpdateCompletesIff(env, f, img, base, header, rules, b);
    DowngradeGuard.DowngradeIsSmaller(installed, header);
    assert Get16(header, 0) == UM_ID <==> DowngradeGuard.IsMarked(header) by {
      MarkIs(header);
    }
    forall r | r in rules ensures TurnedDown(env, r) <==> !SuitsMachine(env, r) {
      TurnedDownIs(env, r);
    }
  }

  lemma MarkIs(v: Version)
    ensures Get16(v, 0) == UM_ID <==> DowngradeGuard.IsMarked(v)
  {
  }

  lemma TurnedDownIs(env: Env, r: Rule)
    ensures TurnedDown(env, r) <==> !SuitsMachine(env, r)
  {
  }

  // ----- the microcontroller after an update -----

  lemma KeepsAll(a: Store, b: Store, c: Store)
    requires Keeps(a, b) && Keeps(b, c)
    ensures Keeps(a, c)
  {
  }

  lemma {:induction false} PartsAreStored(env: Env, mcu: bool, st: Store, top: int, pos: int, data: seq<u8>,
                                          board: int, later: Store, k: nat)
    requires Tidy(st, top) && data != [] && AddParts(env.crc, mcu, st, pos, data, board).Ok?
    requires Mapped(env, later) && Keeps(AddParts(env.crc, mcu, st, pos, data, board).value.store, later)
    requires k < |AddParts(env.crc, mcu, st, pos, data, board).value.commands|
    ensures var c := AddParts(env.crc, mcu, st, pos, data, board).value.commands[k];
            IsPart(c) && k * 49152 <= |data| && PartData(env, c) == Piece(data, k)
    decreases |data|
  {
    hide Tidy, PartData, Mapped, Piece, Placed, Position, Keeps;
    FirstPiece(data);
    if |data| <= MAXIMUM_PART_SIZE {
      PartMeaning(env, mcu, st, top, pos, data, board, later);
    } else {
      var d, rest := data[..49152], data[49152..];
      PartMeaning(env, mcu, st, top, pos, d, board, st);
      var b := AddPart(env.crc, mcu, st, pos, d, board).value;
      PartsMeaning(env, mcu, b.store, top, pos + 49152, rest, board);
      if k == 0 {
        KeepsAll(b.store, AddParts(env.crc, mcu, b.store, pos + 49152, rest, board).value.store, later);
        PartMeaning(env, mcu, st, top, pos, d, board, later);
      } else {
        PartsAreStored(env, mcu, b.store, top, pos + 49152, rest, board, later, k - 1);
        PieceShifts(data, k - 1);
      }
    }
  }

  /** A rule's commands, with the tables before it in order and its blocks kept to the end. */
  lemma {:induction false} RuleStands(env: Env, st: Store, top: int, rules: seq<Rule>, i: nat) returns (s: Store)
    requires Tidy(st, top) && (forall r :: r in rules ==> HasData(r)) && AddRules(env.crc, st, rules).Ok?
    requires i < |rules|
    ensures Tidy(s, top) && AddRule(env.crc, s, rules[i]).Ok?
    ensures var b, all := AddRule(env.crc, s, rules[i]).value, AddRules(env.crc, st, rules).value;
            Keeps(b.store, all.store) && forall c :: c in b.commands ==> c in all.commands
    decreases |rules|
  {
    hide Tidy, AddRule, HasData;
    var b := AddRule(env.crc, st, rules[0]).value;
    assert rules[0] in rules && forall r :: r in rules[1..] ==> r in rules;
    RuleKeepsTidy(env, st, top, rules[0]);
    RulesKeepTidy(env, b.store, top, rules[1..]);
    if i == 0 {
      s := st;
    } else {
      s := RuleStands(env, b.store, top, rules[1..], i - 1);
    }
  }

  lemma {:induction false} SentInPass(env: Env, f: seq<u8>, v: Version, cs: seq<Command>, ph: Phase, c: Command)
    requires ph.Flashing? && !Pass(env, f, v, cs, ph).halted && c in cs && SendsToMcu(env, c)
    ensures McuWrite(c.address, PartData(env, c)) in Pass(env, f, v, cs, ph).ops
    decreases |cs|
  {
    hide PartData, Apply, Refused;
    var o := RunCommand(env, f, v, cs[0], ph);
    if cs[0] == c {
      var op := McuWrite(c.address, PartData(env, c));
      assert CommandOps(env, v, c) == [op];
      PerformBlind(f, [op]);
    } else {
      assert c in cs[1..];
      SentInPass(env, Apply(f, o.ops), NextVersion(v, cs[0]), cs[1..], NextPhase(env, cs[0], ph), c);
    }
  }

  /** Main result: a completed update has sent the microcontroller every part of an MCU_FLASH file
      for this board, byte for byte, from AT on. */
  lemma McuFileIsSent(env: Env, f: seq<u8>, img: seq<u8>, base: seq<u8>, header: Version, rules: seq<Rule>,
                      b: Built, i: nat, k: nat)
    requires Build(env, img, base, header, rules, b) && !Boot(env, f).halted
    requires i < |rules| && rules[i].McuFile? && MeantFor(rules[i].board, env.board)
    requires k * 49152 < |rules[i].data|
    ensures exists op :: op in Boot(env, f).ops && op.McuWrite?
                         && op.addr == rules[i].at + k * 49152 && op.bytes == Piece(rules[i].data, k)
  {
    hide Boot, AddRules, AddParts, Sound, InConsole, Pass, PartData, Mapped, Tidy, Keeps, Piece;
    var cs, st, r := b.commands, Empty(Top(base)), rules[i];
    StoreIsMapped(env, img, base, b.store, header, cs);
    BootRunsBuiltList(env, f, img, base, b.store, header, cs);
    HaveData(env, rules);
    TidyAtFirst(Top(base));
    var s := RuleStands(env, st, Top(base), rules, i);
    var own := AddRule(env.crc, s, r).value.commands;
    var field := McuRuleIsPlaced(env.crc, s, r);
    PartsAreStored(env, true, s, Top(base), r.at, r.data, BoardOf(r.board), b.store, k);
    assert IsPartOf(env.crc, own[k], k, true, r.at, r.data, field);
    OpenedSame(env, cs);
    SentInPass(Opened(env, cs), f, FinalVersion(header, cs), cs, Flashing(true), own[k]);
  }

  lemma HaveData(env: Env, rules: seq<Rule>)
    requires Sound(env, rules)
    ensures forall r :: r in rules ==> HasData(r)
  {
  }

  lemma TidyAtFirst(top: int)
    ensures Tidy(Empty(top), top)
  {
  }
}
