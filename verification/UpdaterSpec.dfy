// What one pass of the updater over a command list asks of the flash, and when it
// halts.  software/userland/src/updater/main.c

module UpdaterSpec {
  import opened Words
  import opened NorFlash
  import opened UpdateManifest
  import opened WriteLock

  /** The one-megabyte address space the updater reads its data from. */
  type AddressSpace = r: seq<u8> | |r| == 0x10_0000 witness seq(0x10_0000, _ => 0xFF)

  /** The machine the updater runs on: its memory, the board revision register, the checksum and
      decompression routines, whether the microcontroller restarts into its boot loader, and
      whether the flash chip's lower 256 KiB are write-protected. */
  datatype Env = Env(memory: AddressSpace, board: u8, crc: seq<u8> -> u16,
                     unzip: seq<u8> -> seq<u8>, mcuRestarts: bool, locked: bool)

  const VERSION_SIZE := 64
  const PARTIAL := 11
  const UM_ID := 0x5746
  const MCU_PAGE := 2048

  /** um_version_t, as bytes. */
  type Version = v: seq<u8> | |v| == VERSION_SIZE witness seq(VERSION_SIZE, _ => 0)

  function SetPartial(v: Version, b: u8): Version {
    v[PARTIAL := b]
  }

  // ----- one command -----

  predicate Applies(env: Env, board: u16) {
    board >= 0x100 || env.board == board
  }

  function LoadBytes(env: Env, segment: u16, n: nat): (d: seq<u8>)
    ensures |d| == n
  {
    seq(n, i requires 0 <= i < n => env.memory[(segment * 16 + i) % 0x10_0000])
  }

  /** The `length` bytes of the unpack buffer, decompressed or copied. */
  function Extract(env: Env, packed: bool, segment: u16, length: nat): (d: seq<u8>)
    ensures |d| == length
  {
    if !packed then LoadBytes(env, segment, length)
    else
      var out := env.unzip(env.memory[segment * 16..]);
      if length <= |out| then out[..length] else out + seq(length - |out|, _ => 0)
  }

  predicate IsPart(c: Command) {
    c.FlashPart? || c.McuPart?
  }

  /** The bytes that a part stands for.  Only parts for the flash chip are ever decompressed: a
      packed part for the microcontroller is taken as it is stored. */
  function PartData(env: Env, c: Command): (d: seq<u8>)
    requires IsPart(c)
    ensures |d| == c.length
  {
    Extract(env, c.FlashPart? && c.packed, c.segment, c.length)
  }

  /** The part's checksum matches, or the part is for another board. */
  predicate ChecksumOk(env: Env, c: Command)
    requires IsPart(c)
  {
    Applies(env, c.board) ==> env.crc(PartData(env, c)) == c.crc
  }

  /** The part goes to the microcontroller of this board. */
  predicate SendsToMcu(env: Env, c: Command) {
    c.McuPart? && Applies(env, c.board)
  }

  function StartOps(v: Version, addr: nat): seq<FlashOp> {
    [Erase(addr), Program(addr, SetPartial(v, 0xFF)), ReadBack(addr, SetPartial(v, 0xFF))]
  }

  function FinishOps(v: Version, addr: nat): seq<FlashOp> {
    [Program(addr, SetPartial(v, 0)[..12]), ReadBack(addr, SetPartial(v, 0))]
  }

  /** The operations that a command asks for, in a flash pass. */
  function AskedOps(env: Env, v: Version, c: Command): seq<FlashOp> {
    match c
    case FlashPart(_, _, _, address, _, board) =>
      if Applies(env, board) then PartOps(address, PartData(env, c)) else []
    case McuPart(_, _, _, address, _, board) =>
      if Applies(env, board) then [McuWrite(address, PartData(env, c))] else []
    case StartManifest(a) => StartOps(v, a)
    case FinishManifest(a) => FinishOps(v, a)
    case CheckBoardRange(_, _) => []
  }

  /** What the chip makes of them. */
  function CommandOps(env: Env, v: Version, c: Command): seq<FlashOp> {
    ShieldAll(env.locked, AskedOps(env, v, c))
  }

  /** The checks a command makes before it touches the flash. */
  predicate Refused(env: Env, c: Command) {
    match c
    case FlashPart(_, _, _, address, _, board) => Applies(env, board) && (!ChecksumOk(env, c) || address % PAGE != 0)
    case McuPart(_, _, _, address, _, board) =>
      Applies(env, board) && (!ChecksumOk(env, c) || address % MCU_PAGE != 0 || !env.mcuRestarts)
    case StartManifest(a) => a % SECTOR != 0
    case FinishManifest(a) => a % SECTOR != 0
    case CheckBoardRange(min, max) => env.board < min || env.board > max
  }

  /** The version block in the updater's RAM after a command. */
  function NextVersion(v: Version, c: Command): Version {
    if c.StartManifest? then SetPartial(v, 0xFF) else if c.FinishManifest? then SetPartial(v, 0) else v
  }

  /** A verify pass, or a flash pass with the microcontroller still in its boot loader or not.  It
      is restarted into the boot loader once, in the verify pass, and out of it after a part. */
  datatype Phase = Verifying | Flashing(boot: bool)

  function NextPhase(env: Env, c: Command, ph: Phase): Phase {
    if ph.Flashing? && SendsToMcu(env, c) then Flashing(false) else ph
  }

  function RunCommand(env: Env, f: seq<u8>, v: Version, c: Command, ph: Phase): Outcome {
    if Refused(env, c) then Outcome([], true)
    else if ph.Verifying? then Outcome([], false)
    else if SendsToMcu(env, c) && !ph.boot then Outcome([], true)
    else Perform(f, CommandOps(env, v, c))
  }

  // ----- a pass -----

  function Pass(env: Env, f: seq<u8>, v: Version, cs: seq<Command>, ph: Phase): Outcome
    decreases |cs|
  {
    if cs == [] then Outcome([], false)
    else
      var o := RunCommand(env, f, v, cs[0], ph);
      if o.halted then o
      else
        var rest := Pass(env, Apply(f, o.ops), NextVersion(v, cs[0]), cs[1..], NextPhase(env, cs[0], ph));
        Outcome(o.ops + rest.ops, rest.halted)
  }

  /** One run over a walked manifest: a walk that ends badly halts once its commands are done. */
  function RunManifest(env: Env, f: seq<u8>, v: Version, p: Parsed, ph: Phase): Outcome {
    var o := Pass(env, f, v, p.commands, ph);
    Outcome(o.ops, o.halted || !p.end.Terminated?)
  }

  function FinalVersion(v: Version, cs: seq<Command>): Version
    decreases |cs|
  {
    if cs == [] then v else FinalVersion(NextVersion(v, cs[0]), cs[1..])
  }

  /** flash_version_address: `address` before the pass, the last START after it. */
  function VersionAddress(address: nat, cs: seq<Command>): nat
    decreases |cs|
  {
    if cs == [] then address
    else VersionAddress(if cs[0].StartManifest? then cs[0].address else address, cs[1..])
  }

  function PhaseAfter(env: Env, cs: seq<Command>, ph: Phase): Phase
    decreases |cs|
  {
    if cs == [] then ph else PhaseAfter(env, cs[1..], NextPhase(env, cs[0], ph))
  }

  predicate IsDowngrade(installed: Version, update: Version) {
    && Get16(installed, 0) == UM_ID
    && (Get16(update, 2) < Get16(installed, 2) ||
        (Get16(update, 2) == Get16(installed, 2) && Get16(update, 4) < Get16(installed, 4)))
  }

  /** The write protection is lifted if the manifest started last is in the factory area. */
  function Opened(env: Env, cs: seq<Command>): Env {
    if VersionAddress(0, cs) < FACTORY_END then env.(locked := false) else env
  }

  /** From a validated manifest to the end: verify everything, check the version, then flash. */
  function Session(env: Env, f: seq<u8>, header: Version, p: Parsed): Outcome {
    var v := FinalVersion(header, p.commands);
    var address := VersionAddress(0, p.commands);
    if RunManifest(env, f, header, p, Verifying).halted then Outcome([], true)
    else if Get16(v, 0) != UM_ID then Outcome([], true)
    else if IsDowngrade(ReadFlash(f, address, VERSION_SIZE), v) && address >= FACTORY_END then Outcome([], true)
    else RunManifest(Opened(env, p.commands), f, v, p, Flashing(true))
  }

  const MANIFEST_SIZE := 512

  /** Where the footer byte says the manifest starts. */
  function ManifestBase(env: Env): nat {
    env.memory[0xFFFF6] as int * 0x1000
  }

  /** The manifest buffer after the copy: `length` bytes of the image, then zeros. */
  function ManifestBuffer(env: Env, length: nat): (b: seq<u8>)
    requires length <= MANIFEST_SIZE
    ensures |b| == MANIFEST_SIZE
  {
    env.memory[ManifestBase(env) + 4..ManifestBase(env) + 4 + length] + seq(MANIFEST_SIZE - length, _ => 0)
  }

  /** The whole program, from power-up. */
  function Boot(env: Env, f: seq<u8>): Outcome {
    var base := ManifestBase(env);
    var length := Get16(env.memory, base);
    if length > MANIFEST_SIZE then Outcome([], true)
    else
      var b := ManifestBuffer(env, length);
      if env.crc(b[..length]) != Get16(env.memory, base + 2) then Outcome([], true)
      else Session(env, f, b[..VERSION_SIZE], Parse(b[VERSION_SIZE..]))
  }

  /** Main result: power-up goes on to a session exactly if the manifest that the footer byte leads
      to has at most 512 bytes and its checksum, and then with its bytes, filled up with zeros. */
  lemma BootIsGuarded(env: Env, f: seq<u8>)
    ensures var at := env.memory[0xFFFF6] as int * 0x1000;
            var n := env.memory[at] as int + 256 * env.memory[at + 1] as int;
            var b := env.memory[at + 4..at + 4 + (if n <= 512 then n else 0)];
            Boot(env, f) ==
              if n > 512 || env.crc(b) != env.memory[at + 2] as int + 256 * env.memory[at + 3] as int
              then Outcome([], true)
              else
                var buffer := b + seq(512 - n, _ => 0);
                Session(env, f, buffer[..64], Parse(buffer[64..]))
  {
    hide Session, Parse;
    var at := ManifestBase(env);
    var n := Get16(env.memory, at);
    if n <= 512 {
      assert ManifestBuffer(env, n)[..n] == env.memory[at + 4..at + 4 + n];
    }
  }

  // ----- nothing is flashed before everything is verified -----

  lemma {:induction false} VerifyPassIsDry(env: Env, f: seq<u8>, v: Version, cs: seq<Command>)
    ensures Pass(env, f, v, cs, Verifying).ops == []
    ensures Pass(env, f, v, cs, Verifying).halted <==> exists c :: c in cs && Refused(env, c)
    decreases |cs|
  {
    hide Refused;
    if cs != [] {
      ApplyNone(f);
      VerifyPassIsDry(env, f, NextVersion(v, cs[0]), cs[1..]);
      assert forall c :: c in cs <==> c == cs[0] || c in cs[1..];
    }
  }

  /** Any operation of a session implies that every part for this board has the checksum of its
      data, every address is aligned, the board is in every range, the microcontroller has
      restarted if it gets a part, the list is well formed and the version block is marked. */
  lemma VerifiedBeforeFlashing(env: Env, f: seq<u8>, header: Version, p: Parsed, c: Command)
    requires Session(env, f, header, p).ops != [] && c in p.commands
    ensures p.end.Terminated? && header[0] == 0x46 && header[1] == 0x57
    ensures IsPart(c) && (c.board >= 256 || c.board == env.board) ==>
              && env.crc(PartData(env, c)) == c.crc
              && (if c.FlashPart? then c.address % 256 == 0 else c.address % 2048 == 0 && env.mcuRestarts)
    ensures c.StartManifest? || c.FinishManifest? ==> c.address % 4096 == 0
    ensures c.CheckBoardRange? ==> c.min <= env.board <= c.max
  {
    SessionChecks(env, f, header, p, c);
    FinalKeeps(header, p.commands, 0);
    FinalKeeps(header, p.commands, 1);
    hide Session, PartData, FinalVersion;
  }

  lemma SessionChecks(env: Env, f: seq<u8>, header: Version, p: Parsed, c: Command)
    requires Session(env, f, header, p).ops != [] && c in p.commands
    ensures !Refused(env, c) && p.end.Terminated? && Get16(FinalVersion(header, p.commands), 0) == 0x5746
  {
    hide Refused, IsDowngrade, Get16, Pass, FinalVersion, VersionAddress, Opened;
    VerifyPassIsDry(env, f, header, p.commands);
  }

  /** In the buffer's version block byte 11 is what the last start or finish made it. */
  lemma {:induction false} LastMarker(v: Version, cs: seq<Command>, i: nat)
    requires i < |cs| && (cs[i].StartManifest? || cs[i].FinishManifest?)
    requires forall k :: i < k < |cs| ==> !cs[k].StartManifest? && !cs[k].FinishManifest?
    ensures FinalVersion(v, cs)[11] == if cs[i].StartManifest? then 0xFF else 0
    decreases |cs|
  {
    if i > 0 {
      LastMarker(NextVersion(v, cs[0]), cs[1..], i - 1);
    } else {
      NoMoreMarkers(NextVersion(v, cs[0]), cs[1..]);
    }
  }

  lemma {:induction false} NoMoreMarkers(v: Version, cs: seq<Command>)
    requires forall k :: 0 <= k < |cs| ==> !cs[k].StartManifest? && !cs[k].FinishManifest?
    ensures FinalVersion(v, cs) == v
    decreases |cs|
  {
    if cs != [] {
      NoMoreMarkers(v, cs[1..]);
    }
  }

  lemma {:induction false} FinalKeeps(v: Version, cs: seq<Command>, i: nat)
    requires i < 11
    ensures FinalVersion(v, cs)[i] == v[i]
    decreases |cs|
  {
    if cs != [] {
      FinalKeeps(NextVersion(v, cs[0]), cs[1..], i);
    }
  }

  // ----- packed parts for the microcontroller -----

  /** Whatever the command's packed bit says, the checksum of a part for the microcontroller is
      that of the stored bytes, and those are what is sent; how they unpack makes no difference. */
  lemma McuPartIsSentAsStored(env: Env, f: seq<u8>, header: Version, c: Command)
    requires SendsToMcu(env, c) && c.address % MCU_PAGE == 0 && env.mcuRestarts
    requires Get16(header, 0) == UM_ID
    ensures var stored := LoadBytes(env, c.segment, c.length);
            Session(env, f, header, Parsed([c], Terminated)) ==
              if env.crc(stored) == c.crc then Outcome([McuWrite(c.address, stored)], false) else Outcome([], true)
  {
    hide Apply, IsDowngrade, RunCommand;
    assert VersionAddress(0, [c]) == 0 && FinalVersion(header, [c]) == header by {
      assert [c][1..] == [];
    }
    PassOne(env, f, header, c, Verifying);
    PassOne(env.(locked := false), f, header, c, Flashing(true));
    SentAsStored(env, f, header, c);
  }

  lemma SentAsStored(env: Env, f: seq<u8>, v: Version, c: Command)
    requires SendsToMcu(env, c) && c.address % MCU_PAGE == 0 && env.mcuRestarts
    ensures var stored := LoadBytes(env, c.segment, c.length);
            && RunCommand(env, f, v, c, Verifying) == Outcome([], env.crc(stored) != c.crc)
            && (env.crc(stored) == c.crc ==>
                  RunCommand(env.(locked := false), f, v, c, Flashing(true))
                  == Outcome([McuWrite(c.address, stored)], false))
  {
    hide Apply;
    var op := McuWrite(c.address, LoadBytes(env, c.segment, c.length));
    assert ShieldAll(false, [op]) == [op];
    PerformBlind(f, [op]);
  }

  lemma PassOne(env: Env, f: seq<u8>, v: Version, c: Command, ph: Phase)
    ensures Pass(env, f, v, [c], ph) == RunCommand(env, f, v, c, ph)
  {
    hide RunCommand, Apply;
    assert [c][1..] == [];
    var o := RunCommand(env, f, v, c, ph);
    assert o.ops + [] == o.ops;
  }

  /** For instance, one zero byte that unpacks to a seven: packed with the checksum of the seven,
      the part is turned down; with that of the zero, the zero is sent. */
  lemma PackedMcuPartIsNotUnpacked(f: seq<u8>, header: Version)
    requires Get16(header, 0) == UM_ID
    ensures var env := Env(seq(0x10_0000, _ => 0), 0, d => if d == [7] then 1 else 2, _ => [7], true, true);
            && env.crc(Extract(env, true, 0, 1)) == 1
            && Session(env, f, header, Parsed([McuPart(true, 0, 1, 0, 1, 0xFFFF)], Terminated)) == Outcome([], true)
            && Session(env, f, header, Parsed([McuPart(true, 0, 1, 0, 2, 0xFFFF)], Terminated))
               == Outcome([McuWrite(0, [0])], false)
  {
    hide Session;
    var env := Env(seq(0x10_0000, _ => 0), 0, d => if d == [7] then 1 else 2, _ => [7], true, true);
    assert LoadBytes(env, 0, 1) == [0];
    McuPartIsSentAsStored(env, f, header, McuPart(true, 0, 1, 0, 1, 0xFFFF));
    McuPartIsSentAsStored(env, f, header, McuPart(true, 0, 1, 0, 2, 0xFFFF));
  }

  // ----- passes in sequence -----

  lemma {:induction false} PassConcat(env: Env, f: seq<u8>, v: Version, a: seq<Command>, b: seq<Command>, ph: Phase)
    ensures var o := Pass(env, f, v, a, ph);
            var o' := Pass(env, Apply(f, o.ops), FinalVersion(v, a), b, PhaseAfter(env, a, ph));
            Pass(env, f, v, a + b, ph) == if o.halted then o else Outcome(o.ops + o'.ops, o'.halted)
    decreases |a|
  {
    hide RunCommand, NextVersion, NextPhase;
    if a == [] {
      assert a + b == b;
      ApplyNone(f);
    } else {
      var o := RunCommand(env, f, v, a[0], ph);
      assert (a + b)[1..] == a[1..] + b;
      if !o.halted {
        var g, w, ph' := Apply(f, o.ops), NextVersion(v, a[0]), NextPhase(env, a[0], ph);
        PassConcat(env, g, w, a[1..], b, ph');
        ApplyConcat(f, o.ops, Pass(env, g, w, a[1..], ph').ops);
      }
    }
  }

  lemma {:induction false} StillFlashing(env: Env, cs: seq<Command>, ph: Phase)
    requires ph.Flashing?
    ensures PhaseAfter(env, cs, ph).Flashing?
    decreases |cs|
  {
    if cs != [] {
      StillFlashing(env, cs[1..], NextPhase(env, cs[0], ph));
    }
  }

  /** The session's flash pass differs from its surroundings in the write protection alone. */
  lemma OpenedSame(env: Env, cs: seq<Command>)
    ensures forall c :: Refused(Opened(env, cs), c) == Refused(env, c)
    ensures forall c :: IsPart(c) ==> PartData(Opened(env, cs), c) == PartData(env, c)
  {
  }
}
