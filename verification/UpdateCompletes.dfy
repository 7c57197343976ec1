// A verified update runs to its end and leaves every finished manifest readable.

module UpdateCompletes {
  import opened Words
  import opened NorFlash
  import opened UpdateManifest
  import opened WriteLock
  import opened UpdaterSpec
  import opened UpdateEffect

  /** The version block is in the flash at `addr`, started or finished. */
  predicate Labelled(f: seq<u8>, addr: nat, v: Version) {
    ReadFlash(f, addr, VERSION_SIZE) == SetPartial(v, 0xFF) || Sealed(f, addr, v)
  }

  predicate Sealed(f: seq<u8>, addr: nat, v: Version) {
    ReadFlash(f, addr, VERSION_SIZE) == SetPartial(v, 0)
  }

  /** Everything the command addresses is on the chip. */
  predicate Fits(env: Env, f: seq<u8>, c: Command) {
    && (IsBookkeeping(c) ==> c.address + VERSION_SIZE <= |f|)
    && (IsDataPart(env, c) ==> c.address + c.length <= |f|)
  }

  /** Every finish has a start for the same address before it. */
  predicate Paired(cs: seq<Command>) {
    forall i :: 0 <= i < |cs| && cs[i].FinishManifest? ==> StartedBefore(cs, i)
  }

  predicate StartedBefore(cs: seq<Command>, i: nat)
    requires i < |cs| && cs[i].FinishManifest?
  {
    exists k :: 0 <= k < i && cs[k].StartManifest? && cs[k].address == cs[i].address
  }

  /** What the command compares of the protected area is in the flash already. */
  predicate LockAgrees(env: Env, f: seq<u8>, v: Version, c: Command) {
    env.locked ==>
      match c
      case FlashPart(_, _, _, a, _, _) => IsDataPart(env, c) ==> InPlace(f, a, PartData(env, c))
      case StartManifest(a) => InPlace(f, a, SetPartial(v, 0xFF))
      case FinishManifest(a) => InPlace(f, a, SetPartial(v, 0))
      case _ => true
  }

  predicate LocksAgree(env: Env, f: seq<u8>, v: Version, cs: seq<Command>) {
    forall c :: c in cs ==> LockAgrees(env, f, v, c)
  }

  /** The list addresses nothing in the protected area. */
  ghost predicate StaysOut(env: Env, cs: seq<Command>) {
    forall c, j: nat :: c in cs && Reaches(env, c, j) ==> !Protected(env, j)
  }

  /** How many parts go to this board's microcontroller. */
  function McuParts(env: Env, cs: seq<Command>): nat
    decreases |cs|
  {
    if cs == [] then 0 else (if SendsToMcu(env, cs[0]) then 1 else 0) + McuParts(env, cs[1..])
  }

  /** The boot loader takes one part. */
  predicate BootLoaderLasts(env: Env, cs: seq<Command>, ph: Phase)
    requires ph.Flashing?
  {
    McuParts(env, cs) <= if ph.boot then 1 else 0
  }

  ghost predicate ClearOf(env: Env, c: Command, addr: nat) {
    forall j :: addr <= j < addr + VERSION_SIZE ==> !Reaches(env, c, j)
  }

  // ----- version blocks, byte by byte -----

  lemma EraseAt(addr: nat, i: nat, x: u8)
    requires addr % SECTOR == 0 && i < SECTOR
    ensures After(Erase(addr), addr + i, x) == 0xFF
  {
  }

  lemma ProgramAt(addr: nat, bytes: seq<u8>, i: nat, x: u8)
    requires addr % SECTOR == 0 && |bytes| <= PAGE && i < PAGE
    ensures After(Program(addr, bytes), addr + i, x) == if i < |bytes| then AndByte(x, bytes[i]) else x
  {
    hide AndByte;
    PageOf(addr, |bytes|, addr + i);
  }

  lemma StartBytes(v: Version, addr: nat, i: nat, x: u8)
    requires addr % SECTOR == 0 && i < VERSION_SIZE
    ensures AfterAll(StartOps(v, addr), addr + i, x) == SetPartial(v, 0xFF)[i]
  {
    hide AndByte, SetPartial, After;
    var u := SetPartial(v, 0xFF);
    EraseAt(addr, i, x);
    ProgramAt(addr, u, i, 0xFF);
    assert StartOps(v, addr)[1..] == [Program(addr, u), ReadBack(addr, u)] + [];
    AfterTwo(Program(addr, u), ReadBack(addr, u), [], addr + i, 0xFF);
    AndByteFacts(0xFF, u[i]);
  }

  lemma BeyondBlock(addr: nat, bytes: seq<u8>, i: nat, x: u8)
    requires addr % SECTOR == 0 && |bytes| <= i < SECTOR && |bytes| <= PAGE
    ensures After(Program(addr, bytes), addr + i, x) == x
  {
    hide AndByte;
    if i < PAGE {
      ProgramAt(addr, bytes, i, x);
    }
  }

  lemma StartBlanks(f: seq<u8>, v: Version, addr: nat)
    requires addr % SECTOR == 0
    ensures forall j :: addr + 64 <= j < |f| && j < addr + 4096 ==> Apply(f, StartOps(v, addr))[j] == 0xFF
  {
    hide After, SetPartial, AfterAll;
    var u := SetPartial(v, 0xFF);
    forall j | addr + 64 <= j < |f| && j < addr + 4096 ensures AfterAll(StartOps(v, addr), j, f[j]) == 0xFF {
      EraseAt(addr, j - addr, f[j]);
      BeyondBlock(addr, u, j - addr, 0xFF);
      assert StartOps(v, addr) == [Erase(addr)] + ([Program(addr, u), ReadBack(addr, u)] + []);
      AfterConcat([Erase(addr)], [Program(addr, u), ReadBack(addr, u)] + [], j, f[j]);
      AfterOne(Erase(addr), j, f[j]);
      AfterTwo(Program(addr, u), ReadBack(addr, u), [], j, 0xFF);
      AfterNone(j, 0xFF);
    }
  }

  lemma AfterNone(j: nat, v: u8)
    ensures AfterAll([], j, v) == v
  {
  }

  lemma FinishBytes(v: Version, addr: nat, i: nat, x: u8)
    requires addr % SECTOR == 0 && i < VERSION_SIZE
    requires x == SetPartial(v, 0xFF)[i] || x == SetPartial(v, 0)[i]
    ensures AfterAll(FinishOps(v, addr), addr + i, x) == SetPartial(v, 0)[i]
  {
    hide AndByte, After;
    var u := SetPartial(v, 0);
    ProgramAt(addr, u[..12], i, x);
    assert FinishOps(v, addr) == [Program(addr, u[..12]), ReadBack(addr, u)] + [];
    AfterTwo(Program(addr, u[..12]), ReadBack(addr, u), [], addr + i, x);
    AndByteFacts(x, u[i]);
  }

  lemma StartWrites(f: seq<u8>, v: Version, addr: nat)
    requires addr % SECTOR == 0 && addr + VERSION_SIZE <= |f|
    ensures ReadFlash(Apply(f, StartOps(v, addr)), addr, VERSION_SIZE) == SetPartial(v, 0xFF)
  {
    hide AfterAll, StartOps;
    forall i | 0 <= i < VERSION_SIZE
      ensures AfterAll(StartOps(v, addr), addr + i, f[addr + i]) == SetPartial(v, 0xFF)[i]
    {
      StartBytes(v, addr, i, f[addr + i]);
    }
  }

  lemma FinishWrites(f: seq<u8>, v: Version, addr: nat)
    requires addr % SECTOR == 0 && addr + VERSION_SIZE <= |f| && Labelled(f, addr, v)
    ensures ReadFlash(Apply(f, FinishOps(v, addr)), addr, VERSION_SIZE) == SetPartial(v, 0)
  {
    hide AfterAll, FinishOps;
    forall i | 0 <= i < VERSION_SIZE
      ensures AfterAll(FinishOps(v, addr), addr + i, f[addr + i]) == SetPartial(v, 0)[i]
    {
      assert f[addr + i] == ReadFlash(f, addr, VERSION_SIZE)[i];
      FinishBytes(v, addr, i, f[addr + i]);
    }
  }

  /** A byte of a version block in the flash; byte 11 is its partial_install. */
  lemma BlockByte(f: seq<u8>, v: Version, addr: nat, partial: u8, i: nat)
    requires addr + VERSION_SIZE <= |f| && ReadFlash(f, addr, VERSION_SIZE) == SetPartial(v, partial) && i < 64
    ensures f[addr + i] == if i == 11 then partial else v[i]
  {
    assert ReadFlash(f, addr, VERSION_SIZE)[i] == f[addr + i];
  }

  lemma StartLabels(f: seq<u8>, v: Version, addr: nat)
    requires addr % SECTOR == 0 && addr + VERSION_SIZE <= |f|
    ensures Perform(f, StartOps(v, addr)) == Outcome(StartOps(v, addr), false)
    ensures Labelled(Apply(f, StartOps(v, addr)), addr, v)
  {
    hide Perform, ReadFlash, Apply, SetPartial;
    StartWrites(f, v, addr);
    var u := SetPartial(v, 0xFF);
    assert [Erase(addr), Program(addr, u)] + [ReadBack(addr, u)] == StartOps(v, addr);
    ReadBackAgrees(f, [Erase(addr), Program(addr, u)], ReadBack(addr, u));
  }

  lemma FinishSeals(f: seq<u8>, v: Version, addr: nat)
    requires addr % SECTOR == 0 && addr + VERSION_SIZE <= |f| && Labelled(f, addr, v)
    ensures Perform(f, FinishOps(v, addr)) == Outcome(FinishOps(v, addr), false)
    ensures Sealed(Apply(f, FinishOps(v, addr)), addr, v)
  {
    hide Perform, ReadFlash, Apply, SetPartial;
    FinishWrites(f, v, addr);
    var u := SetPartial(v, 0);
    assert [Program(addr, u[..12])] + [ReadBack(addr, u)] == FinishOps(v, addr);
    ReadBackAgrees(f, [Program(addr, u[..12])], ReadBack(addr, u));
  }

  /** A start leaves the update's version block with byte 11 all ones, and the rest of the sector blank. */
  lemma StartedBytes(f: seq<u8>, v: Version, addr: nat)
    requires addr % SECTOR == 0 && addr + VERSION_SIZE <= |f|
    ensures var g := Apply(f, StartOps(v, addr));
            && (forall i :: 0 <= i < 64 ==> g[addr + i] == if i == 11 then 0xFF else v[i])
            && (forall j :: addr + 64 <= j < |f| && j < addr + 4096 ==> g[j] == 0xFF)
  {
    hide StartOps, AfterAll, SetPartial, ReadFlash;
    StartWrites(f, v, addr);
    var g := Apply(f, StartOps(v, addr));
    forall i | 0 <= i < 64 ensures g[addr + i] == if i == 11 then 0xFF else v[i] {
      BlockByte(g, v, addr, 0xFF, i);
    }
    StartBlanks(f, v, addr);
  }

  /** A finish leaves it with byte 11 zero. */
  lemma FinishedBytes(f: seq<u8>, v: Version, addr: nat)
    requires addr % SECTOR == 0 && addr + VERSION_SIZE <= |f| && Labelled(f, addr, v)
    ensures forall i :: 0 <= i < 64 ==> Apply(f, FinishOps(v, addr))[addr + i] == if i == 11 then 0 else v[i]
  {
    hide FinishOps, AfterAll, SetPartial, ReadFlash;
    FinishWrites(f, v, addr);
    var g := Apply(f, FinishOps(v, addr));
    forall i | 0 <= i < 64 ensures g[addr + i] == if i == 11 then 0 else v[i] {
      BlockByte(g, v, addr, 0, i);
    }
  }

  /** A read-back agrees if the flash after it, which is the flash before it, holds what it wants. */
  lemma ReadBackAgrees(f: seq<u8>, ops: seq<FlashOp>, read: FlashOp)
    requires read.ReadBack? && forall op :: op in ops ==> !op.ReadBack?
    requires Agrees(Apply(f, ops + [read]), read)
    ensures Perform(f, ops + [read]) == Outcome(ops + [read], false)
  {
    var h := Apply(f, ops);
    ApplyConcat(f, ops, [read]);
    forall j | 0 <= j < |f| ensures Apply(h, [read])[j] == h[j] {
      AfterOne(read, j, h[j]);
    }
    assert Apply(h, [read]) == h;
    PerformBlind(f, ops);
    PerformConcat(f, ops, [read]);
    PerformIsPrefix(h, [read]);
    assert [read][1..] == [];
  }

  // ----- one command -----

  lemma SameLock(env: Env, f: seq<u8>, g: seq<u8>, v: Version, d: Command, c: Command)
    requires |g| == |f| && forall j :: 0 <= j < |f| && Protected(env, j) ==> g[j] == f[j]
    ensures LockAgrees(env, g, NextVersion(v, d), c) == LockAgrees(env, f, v, c)
  {
    SameLabel(v, d);
    if env.locked {
      hide InPlace, SetPartial, NextVersion, PartData;
      match c
      case FlashPart(_, _, _, a, _, _) => SameBelow(f, g, a, PartData(env, c));
      case StartManifest(a) => SameBelow(f, g, a, SetPartial(v, 0xFF));
      case FinishManifest(a) => SameBelow(f, g, a, SetPartial(v, 0));
      case _ =>
    }
  }

  lemma StaysOutAgrees(env: Env, f: seq<u8>, v: Version, cs: seq<Command>)
    requires StaysOut(env, cs)
    ensures LocksAgree(env, f, v, cs)
  {
    forall c | c in cs ensures LockAgrees(env, f, v, c) {
      if env.locked && IsDataPart(env, c) && !InPlace(f, c.address, PartData(env, c)) {
        var i :| 0 <= i < c.length && c.address + i < FACTORY_END && c.address + i < |f|;
        PartReaches(env, c, i);
      } else if env.locked && IsBookkeeping(c) {
        assert Reaches(env, c, c.address);
      }
    }
  }

  lemma PartReaches(env: Env, c: Command, i: nat)
    requires IsDataPart(env, c) && i < c.length
    ensures Reaches(env, c, c.address + i)
  {
    InsideIsCovered(c.address, c.length, c.address + i);
  }

  /** The protected bytes of the flash are those of before, whatever a command or a pass did. */
  lemma ProtectedStays(env: Env, f: seq<u8>, v: Version, c: Command, ph: Phase)
    ensures var g := Apply(f, RunCommand(env, f, v, c, ph).ops);
            |g| == |f| && forall j :: 0 <= j < |f| && Protected(env, j) ==> g[j] == f[j]
  {
    hide Touches, Reaches, Refused, CommandOps, AfterAll, Protected;
    var o := RunCommand(env, f, v, c, ph);
    PerformIsPrefix(f, CommandOps(env, v, c));
    forall j | 0 <= j < |f| && Protected(env, j) ensures AfterAll(o.ops, j, f[j]) == f[j] {
      forall op | op in o.ops ensures !Touches(op, j) {
        if Touches(op, j) {
          CommandStaysInReach(env, v, c, op, j);
        }
      }
      UntouchedStays(o.ops, j, f[j]);
    }
  }

  lemma UnreachedBlock(env: Env, f: seq<u8>, v: Version, c: Command, ph: Phase, addr: nat)
    requires forall j :: addr <= j < addr + VERSION_SIZE ==> Protected(env, j) || !Reaches(env, c, j)
    ensures ReadFlash(Apply(f, RunCommand(env, f, v, c, ph).ops), addr, VERSION_SIZE)
            == ReadFlash(f, addr, VERSION_SIZE)
  {
    hide Touches, Reaches, Refused, CommandOps, AfterAll, Protected;
    var o := RunCommand(env, f, v, c, ph);
    PerformIsPrefix(f, CommandOps(env, v, c));
    forall j | addr <= j < addr + VERSION_SIZE && j < |f| ensures AfterAll(o.ops, j, f[j]) == f[j] {
      forall op | op in o.ops ensures !Touches(op, j) {
        if Touches(op, j) {
          CommandStaysInReach(env, v, c, op, j);
        }
      }
      UntouchedStays(o.ops, j, f[j]);
    }
  }

  lemma BlockIsBelow(addr: nat)
    requires addr % SECTOR == 0
    ensures addr < FACTORY_END ==> addr + VERSION_SIZE <= FACTORY_END
  {
    assert FACTORY_END == 64 * SECTOR;
  }

  /** Above the border a start or a finish is carried out as asked. */
  lemma BlockAbove(env: Env, f: seq<u8>, v: Version, c: Command)
    requires IsBookkeeping(c) && !(env.locked && c.address < FACTORY_END)
    ensures CommandOps(env, v, c) == AskedOps(env, v, c) && LockAgrees(env, f, v, c)
  {
    hide SetPartial;
    ShieldPasses(env.locked, AskedOps(env, v, c));
  }

  /** Below it, it only compares. */
  lemma BlockBelow(env: Env, f: seq<u8>, v: Version, c: Command)
    requires IsBookkeeping(c) && env.locked && c.address < FACTORY_END && c.address % SECTOR == 0
    ensures var want := SetPartial(v, if c.StartManifest? then 0xFF else 0);
            var o := Perform(f, CommandOps(env, v, c));
            && (o.halted <==> ReadFlash(f, c.address, VERSION_SIZE) != want)
            && (ReadFlash(f, c.address, VERSION_SIZE) == want ==> LockAgrees(env, f, v, c))
            && (c.address + VERSION_SIZE <= |f| && LockAgrees(env, f, v, c) ==>
                  ReadFlash(f, c.address, VERSION_SIZE) == want)
  {
    hide SetPartial, Perform, ReadFlash, InPlace, CommandOps, Apply;
    var want := SetPartial(v, if c.StartManifest? then 0xFF else 0);
    var skip, read := Ignored(c.address), ReadBack(c.address, want);
    BlockIsBelow(c.address);
    ReadIsInPlace(f, c.address, want);
    NothingToPerform(f);
    IgnoredPage(f, c.address, want, []);
    assert [skip, read] + [] == [skip, read];
    BelowOps(env, v, c);
    Untouching(f, skip);
    SkipOne(f, skip, [skip, read]);
  }

  lemma BelowOps(env: Env, v: Version, c: Command)
    requires IsBookkeeping(c) && env.locked && c.address < FACTORY_END
    ensures var skip := Ignored(c.address);
            var read := ReadBack(c.address, SetPartial(v, if c.StartManifest? then 0xFF else 0));
            CommandOps(env, v, c) == if c.StartManifest? then [skip] + [skip, read] else [skip, read]
  {
    hide SetPartial;
  }

  lemma SkipOne(f: seq<u8>, skip: FlashOp, rest: seq<FlashOp>)
    requires skip.Ignored? && Apply(f, [skip]) == f
    ensures Perform(f, [skip] + rest).halted == Perform(f, rest).halted
  {
    assert ([skip] + rest)[1..] == rest;
  }

  /** Main result for one command: it gets through exactly if what it compares in the protected
      area is there already, and a manifest is then labelled or sealed. */
  lemma CommandRunsIff(env: Env, f: seq<u8>, v: Version, c: Command)
    requires !Refused(env, c) && Fits(env, f, c)
    requires c.FinishManifest? ==> Labelled(f, c.address, v)
    ensures var o := Perform(f, CommandOps(env, v, c));
            && (o.halted <==> !LockAgrees(env, f, v, c))
            && (!o.halted && c.StartManifest? ==> Labelled(Apply(f, o.ops), c.address, v))
            && (!o.halted && c.FinishManifest? ==> Sealed(Apply(f, o.ops), c.address, v))
  {
    hide ChecksumOk, PartData, StartOps, FinishOps, PartOps, ShieldAll, InPlace;
    if IsBookkeeping(c) {
      if env.locked && c.address < FACTORY_END {
        BlockBelow(env, f, v, c);
        LockedBlockStays(env, f, v, c);
      } else {
        BlockAbove(env, f, v, c);
        if c.StartManifest? {
          StartLabels(f, v, c.address);
        } else {
          FinishSeals(f, v, c.address);
        }
      }
    } else {
      OtherRuns(env, f, v, c);
    }
  }

  lemma LockedBlockStays(env: Env, f: seq<u8>, v: Version, c: Command)
    requires IsBookkeeping(c) && env.locked && c.address < FACTORY_END && c.address % SECTOR == 0
    ensures ReadFlash(Apply(f, Perform(f, CommandOps(env, v, c)).ops), c.address, VERSION_SIZE)
            == ReadFlash(f, c.address, VERSION_SIZE)
  {
    BlockIsBelow(c.address);
    hide CommandOps, Reaches, ReadFlash;
    UnreachedBlock(env, f, v, c, Flashing(true), c.address);
  }

  lemma OtherRuns(env: Env, f: seq<u8>, v: Version, c: Command)
    requires !Refused(env, c) && Fits(env, f, c) && !IsBookkeeping(c)
    ensures Perform(f, CommandOps(env, v, c)).halted <==> !LockAgrees(env, f, v, c)
  {
    hide ChecksumOk, PartData, PartOps, InPlace;
    var asked := AskedOps(env, v, c);
    if IsDataPart(env, c) {
      hide ShieldAll;
      if env.locked {
        ShieldedPartIff(f, c.address, PartData(env, c));
      } else {
        ShieldPasses(false, asked);
        PartAlwaysAgrees(f, c.address, PartData(env, c));
      }
    } else {
      ShieldPasses(env.locked, asked);
      PerformBlind(f, ShieldAll(env.locked, asked));
    }
  }

  /** The same for a command of a flash pass, where a part for the microcontroller also needs it
      to be in its boot loader. */
  lemma FlashRunsIff(env: Env, f: seq<u8>, v: Version, c: Command, ph: Phase)
    requires ph.Flashing? && !Refused(env, c) && Fits(env, f, c)
    requires c.FinishManifest? ==> Labelled(f, c.address, v)
    ensures var o := RunCommand(env, f, v, c, ph);
            && (!o.halted <==> LockAgrees(env, f, v, c) && (SendsToMcu(env, c) ==> ph.boot))
            && (!o.halted && c.StartManifest? ==> Labelled(Apply(f, o.ops), c.address, v))
            && (!o.halted && c.FinishManifest? ==> Sealed(Apply(f, o.ops), c.address, v))
  {
    hide Refused, Labelled, Sealed, LockAgrees, CommandOps, Perform;
    CommandRunsIff(env, f, v, c);
  }

  lemma LabelKept(env: Env, f: seq<u8>, v: Version, c: Command, ph: Phase, addr: nat)
    requires ph.Flashing? && !Refused(env, c) && Fits(env, f, c)
    requires addr % SECTOR == 0 && addr + VERSION_SIZE <= |f| && Labelled(f, addr, v)
    requires IsBookkeeping(c) || ClearOf(env, c, addr)
    ensures Labelled(Apply(f, RunCommand(env, f, v, c, ph).ops), addr, NextVersion(v, c))
    ensures Sealed(f, addr, v) && !(c.StartManifest? && c.address == addr) ==>
              Sealed(Apply(f, RunCommand(env, f, v, c, ph).ops), addr, NextVersion(v, c))
  {
    SameLabel(v, c);
    BlockIsBelow(addr);
    if IsBookkeeping(c) && c.address == addr && !Protected(env, addr) {
      hide ChecksumOk, PartData, StartOps, FinishOps, PartOps, ReadFlash, RunCommand, ShieldAll, InPlace;
      BlockAbove(env, f, v, c);
      FlashRunsIff(env, f, v, c, ph);
    } else {
      assert forall j :: addr <= j < addr + VERSION_SIZE ==> Protected(env, j) || !Reaches(env, c, j) by {
        hide RunCommand, Labelled, ChecksumOk;
        if IsBookkeeping(c) && c.address != addr {
          OtherSector(env, c, addr);
        }
      }
      hide RunCommand, ReadFlash, ClearOf, Reaches;
      UnreachedBlock(env, f, v, c, ph, addr);
    }
  }

  lemma OtherSector(env: Env, c: Command, addr: nat)
    requires IsBookkeeping(c) && c.address % SECTOR == 0 && addr % SECTOR == 0 && c.address != addr
    ensures ClearOf(env, c, addr)
  {
  }

  lemma SameLabel(v: Version, c: Command)
    ensures SetPartial(NextVersion(v, c), 0xFF) == SetPartial(v, 0xFF)
    ensures SetPartial(NextVersion(v, c), 0) == SetPartial(v, 0)
  {
  }

  // ----- whole passes -----

  ghost predicate Runnable(env: Env, f: seq<u8>, cs: seq<Command>) {
    && (forall c :: c in cs ==> !Refused(env, c) && Fits(env, f, c))
    && Apart(env, cs)
  }

  lemma ApartIsClear(env: Env, cs: seq<Command>, c: Command, m: Command)
    requires Apart(env, cs) && c in cs && m in cs && IsBookkeeping(m) && !IsBookkeeping(c)
    requires m.address % SECTOR == 0
    ensures ClearOf(env, c, m.address)
  {
    forall j | m.address <= j < m.address + VERSION_SIZE ensures !Reaches(env, c, j) {
      assert Reaches(env, m, j);
    }
  }

  lemma ApartTail(env: Env, f: seq<u8>, g: seq<u8>, cs: seq<Command>)
    requires Runnable(env, f, cs) && cs != [] && |g| == |f|
    ensures Runnable(env, g, cs[1..])
  {
    hide Refused, Reaches;
    assert forall c :: c in cs[1..] ==> c in cs;
  }

  /** Every finish of the list is labelled already, or started before it. */
  ghost predicate Ready(f: seq<u8>, v: Version, cs: seq<Command>) {
    forall i :: 0 <= i < |cs| && cs[i].FinishManifest? ==>
      Labelled(f, cs[i].address, v) || StartedBefore(cs, i)
  }

  lemma PairedIsReady(f: seq<u8>, v: Version, cs: seq<Command>)
    requires Paired(cs)
    ensures Ready(f, v, cs)
  {
  }

  lemma ReadyTail(env: Env, f: seq<u8>, v: Version, cs: seq<Command>, ph: Phase)
    requires ph.Flashing? && cs != [] && Runnable(env, f, cs) && Ready(f, v, cs)
    requires !RunCommand(env, f, v, cs[0], ph).halted
    ensures Ready(Apply(f, RunCommand(env, f, v, cs[0], ph).ops), NextVersion(v, cs[0]), cs[1..])
  {
    hide RunCommand, Labelled, Sealed, ChecksumOk, Reaches, NextVersion, ClearOf, Runnable;
    var c, rest := cs[0], cs[1..];
    var g, w := Apply(f, RunCommand(env, f, v, c, ph).ops), NextVersion(v, c);
    forall i | 0 <= i < |rest| && rest[i].FinishManifest?
      ensures Labelled(g, rest[i].address, w) || StartedBefore(rest, i)
    {
      assert rest[i] == cs[i + 1] && rest[i] in cs;
      ReadyOne(env, f, v, cs, ph, i + 1);
    }
  }

  lemma ReadyOne(env: Env, f: seq<u8>, v: Version, cs: seq<Command>, ph: Phase, i: nat)
    requires ph.Flashing? && Runnable(env, f, cs) && 0 < i < |cs| && cs[i].FinishManifest?
    requires !RunCommand(env, f, v, cs[0], ph).halted
    requires Labelled(f, cs[i].address, v) || StartedBefore(cs, i)
    ensures Labelled(Apply(f, RunCommand(env, f, v, cs[0], ph).ops), cs[i].address, NextVersion(v, cs[0]))
            || StartedBefore(cs[1..], i - 1)
  {
    hide RunCommand, Labelled, Sealed, ChecksumOk, Reaches, NextVersion, ClearOf, Apart, LockAgrees;
    var c, m := cs[0], cs[i];
    assert c in cs && m in cs;
    if Labelled(f, m.address, v) {
      if !IsBookkeeping(c) {
        ApartIsClear(env, cs, c, m);
      }
      LabelKept(env, f, v, c, ph, m.address);
    } else {
      var k :| 0 <= k < i && cs[k].StartManifest? && cs[k].address == m.address;
      if k == 0 {
        FlashRunsIff(env, f, v, c, ph);
        LabelSame(Apply(f, RunCommand(env, f, v, c, ph).ops), m.address, v, c);
      } else {
        assert cs[1..][k - 1] == cs[k];
      }
    }
  }

  lemma LabelSame(f: seq<u8>, addr: nat, v: Version, c: Command)
    requires Labelled(f, addr, v)
    ensures Labelled(f, addr, NextVersion(v, c))
  {
    SameLabel(v, c);
  }

  lemma LocksTail(env: Env, f: seq<u8>, g: seq<u8>, v: Version, cs: seq<Command>)
    requires cs != [] && LockAgrees(env, f, v, cs[0])
    requires |g| == |f| && forall j :: 0 <= j < |f| && Protected(env, j) ==> g[j] == f[j]
    ensures LocksAgree(env, f, v, cs) <==> LocksAgree(env, g, NextVersion(v, cs[0]), cs[1..])
  {
    hide LockAgrees, NextVersion, Protected;
    forall c ensures LockAgrees(env, g, NextVersion(v, cs[0]), c) == LockAgrees(env, f, v, c) {
      SameLock(env, f, g, v, cs[0], c);
    }
    assert forall c :: c in cs <==> c == cs[0] || c in cs[1..];
  }

  /** Main result: if nothing is refused, everything fits, manifests keep clear of data and every
      finish has its start, then the flash pass performs all its operations exactly if what it
      compares in the protected area is there already and the microcontroller gets at most one
      part; otherwise it halts. */
  lemma {:induction false} PassCompletesIff(env: Env, f: seq<u8>, v: Version, cs: seq<Command>, ph: Phase)
    requires ph.Flashing? && Runnable(env, f, cs) && Ready(f, v, cs)
    ensures !Pass(env, f, v, cs, ph).halted <==> LocksAgree(env, f, v, cs) && BootLoaderLasts(env, cs, ph)
    decreases |cs|
  {
    hide Refused, Labelled, Fits, Apart, NextVersion, RunCommand, LockAgrees, SendsToMcu;
    if cs != [] {
      var c := cs[0];
      assert c in cs;
      var o := RunCommand(env, f, v, c, ph);
      assert c.FinishManifest? ==> Labelled(f, c.address, v) by {
        hide Runnable;
      }
      FlashRunsIff(env, f, v, c, ph);
      if !o.halted {
        var g, w := Apply(f, o.ops), NextVersion(v, c);
        ProtectedStays(env, f, v, c, ph);
        LocksTail(env, f, g, v, cs);
        ApartTail(env, f, g, cs);
        ReadyTail(env, f, v, cs, ph);
        PassCompletesIff(env, g, w, cs[1..], NextPhase(env, c, ph));
      }
    }
  }

  /** In particular a list that keeps out of a protected area, with at most one part for the
      microcontroller, runs to its end. */
  lemma PassCompletes(env: Env, f: seq<u8>, v: Version, cs: seq<Command>)
    requires Runnable(env, f, cs) && Ready(f, v, cs) && StaysOut(env, cs) && McuParts(env, cs) <= 1
    ensures !Pass(env, f, v, cs, Flashing(true)).halted
  {
    hide Runnable, Ready, StaysOut, LocksAgree, Pass;
    StaysOutAgrees(env, f, v, cs);
    PassCompletesIff(env, f, v, cs, Flashing(true));
  }

  /** A pass that gets through needs agreement in the protected area, whatever its layout. */
  lemma {:induction false} PassNeedsLocks(env: Env, f: seq<u8>, v: Version, cs: seq<Command>, ph: Phase)
    requires ph.Flashing? && !Pass(env, f, v, cs, ph).halted
    ensures LocksAgree(env, f, v, cs)
    decreases |cs|
  {
    hide Refused, NextVersion, RunCommand, LockAgrees;
    if cs != [] {
      var c := cs[0];
      var g := Apply(f, RunCommand(env, f, v, c, ph).ops);
      CommandNeedsLock(env, f, v, c, ph);
      ProtectedStays(env, f, v, c, ph);
      LocksTail(env, f, g, v, cs);
      PassNeedsLocks(env, g, NextVersion(v, c), cs[1..], NextPhase(env, c, ph));
    }
  }

  lemma CommandNeedsLock(env: Env, f: seq<u8>, v: Version, c: Command, ph: Phase)
    requires ph.Flashing? && !RunCommand(env, f, v, c, ph).halted
    ensures LockAgrees(env, f, v, c)
  {
    hide ChecksumOk, PartData, PartOps, ShieldAll, Perform, InPlace;
    if env.locked {
      if IsDataPart(env, c) {
        ShieldedPartIff(f, c.address, PartData(env, c));
      } else if IsBookkeeping(c) && c.address < FACTORY_END {
        BlockBelow(env, f, v, c);
      } else if IsBookkeeping(c) {
        BlockAbove(env, f, v, c);
      }
    }
  }

  lemma {:induction false} SealKept(env: Env, f: seq<u8>, v: Version, cs: seq<Command>, ph: Phase, addr: nat)
    requires ph.Flashing? && addr % SECTOR == 0 && addr + VERSION_SIZE <= |f| && Sealed(f, addr, v)
    requires forall c :: c in cs ==> !Refused(env, c) && Fits(env, f, c) && (IsBookkeeping(c) || ClearOf(env, c, addr))
    requires forall c :: c in cs ==> !(c.StartManifest? && c.address == addr)
    ensures Sealed(Apply(f, Pass(env, f, v, cs, ph).ops), addr, v)
    decreases |cs|
  {
    hide Refused, CommandOps, Sealed, ClearOf, NextVersion, RunCommand;
    if cs == [] {
      ApplyNone(f);
    } else {
      var c := cs[0];
      assert c in cs;
      var o := RunCommand(env, f, v, c, ph);
      LabelKept(env, f, v, c, ph, addr);
      var g, w, next := Apply(f, o.ops), NextVersion(v, c), NextPhase(env, c, ph);
      SealSame(g, addr, v, c);
      if !o.halted {
        assert forall c :: c in cs[1..] ==> c in cs;
        SealKept(env, g, w, cs[1..], next, addr);
        ApplyConcat(f, o.ops, Pass(env, g, w, cs[1..], next).ops);
        SealSame(Apply(g, Pass(env, g, w, cs[1..], next).ops), addr, v, c);
      }
    }
  }

  lemma SealSame(f: seq<u8>, addr: nat, v: Version, c: Command)
    ensures Sealed(f, addr, NextVersion(v, c)) == Sealed(f, addr, v)
  {
    SameLabel(v, c);
  }

  lemma {:induction false} FinalLabel(v: Version, cs: seq<Command>)
    ensures SetPartial(FinalVersion(v, cs), 0) == SetPartial(v, 0)
    ensures SetPartial(FinalVersion(v, cs), 0xFF) == SetPartial(v, 0xFF)
    decreases |cs|
  {
    if cs != [] {
      SameLabel(v, cs[0]);
      FinalLabel(NextVersion(v, cs[0]), cs[1..]);
    }
  }

  lemma RestIsClear(env: Env, f: seq<u8>, cs: seq<Command>, m: Command)
    requires Runnable(env, f, cs) && m in cs && IsBookkeeping(m) && m.address % SECTOR == 0
    ensures forall c :: c in cs[1..] ==>
              !Refused(env, c) && Fits(env, f, c) && (IsBookkeeping(c) || ClearOf(env, c, m.address))
  {
    hide ClearOf, Refused, Fits, Apart;
    forall c | c in cs[1..]
      ensures !Refused(env, c) && Fits(env, f, c) && (IsBookkeeping(c) || ClearOf(env, c, m.address))
    {
      assert c in cs;
      if !IsBookkeeping(c) {
        ApartIsClear(env, cs, c, m);
      }
    }
  }

  lemma SameFits(env: Env, f: seq<u8>, g: seq<u8>, cs: seq<Command>)
    requires |f| == |g|
    ensures forall c :: c in cs ==> Fits(env, f, c) == Fits(env, g, c)
  {
  }

  /** Main result: after a pass that got through, a manifest whose last command is a finish holds
      the version with partial_install 0. */
  lemma FinishedManifestReads(env: Env, f: seq<u8>, v: Version, cs: seq<Command>, ph: Phase, i: nat)
    requires ph.Flashing? && Runnable(env, f, cs) && Ready(f, v, cs) && !Pass(env, f, v, cs, ph).halted
    requires i < |cs| && cs[i].FinishManifest?
    requires forall k :: i < k < |cs| ==> !(cs[k].StartManifest? && cs[k].address == cs[i].address)
    ensures ReadFlash(Apply(f, Pass(env, f, v, cs, ph).ops), cs[i].address, VERSION_SIZE) == SetPartial(v, 0)
    decreases |cs|
  {
    hide CommandOps, NextVersion, RunCommand, ClearOf, ReadFlash, Labelled, LockAgrees;
    var c := cs[0];
    assert c in cs;
    var o := RunCommand(env, f, v, c, ph);
    var g, w, next := Apply(f, o.ops), NextVersion(v, c), NextPhase(env, c, ph);
    var rest := Pass(env, g, w, cs[1..], next);
    ApplyConcat(f, o.ops, rest.ops);
    SameLabel(v, c);
    if i == 0 {
      FlashRunsIff(env, f, v, c, ph);
      SealSame(g, c.address, v, c);
      RestIsClear(env, f, cs, c);
      SameFits(env, f, g, cs[1..]);
      assert forall d :: d in cs[1..] ==> exists k :: 0 < k < |cs| && cs[k] == d;
      SealKept(env, g, w, cs[1..], next, c.address);
    } else {
      ApartTail(env, f, g, cs);
      ReadyTail(env, f, v, cs, ph);
      FinishedManifestReads(env, g, w, cs[1..], next, i - 1);
    }
  }

  // ----- the session's flash pass -----

  /** Lifting the write protection changes neither the layout conditions nor the parts. */
  lemma OpenedLayout(env: Env, cs: seq<Command>, f: seq<u8>, some: seq<Command>)
    ensures Runnable(Opened(env, cs), f, some) == Runnable(env, f, some)
    ensures Apart(Opened(env, cs), some) == Apart(env, some)
    ensures forall c, j: nat :: Reaches(Opened(env, cs), c, j) == Reaches(env, c, j)
    ensures forall c :: IsDataPart(Opened(env, cs), c) == IsDataPart(env, c)
    ensures McuParts(Opened(env, cs), some) == McuParts(env, some)
  {
    var e := Opened(env, cs);
    assert forall c :: IsDataPart(e, c) == IsDataPart(env, c);
    assert forall c :: SendsToMcu(e, c) == SendsToMcu(env, c);
    assert forall c, j: nat :: Reaches(e, c, j) == Reaches(env, c, j);
    assert forall c :: Fits(e, f, c) == Fits(env, f, c);
    OpenedSame(env, cs);
    hide Refused, Reaches, IsDataPart, SendsToMcu, Fits, Opened;
    SameMcuParts(e, env, some);
  }

  lemma {:induction false} SameMcuParts(e: Env, env: Env, cs: seq<Command>)
    requires forall c :: SendsToMcu(e, c) == SendsToMcu(env, c)
    ensures McuParts(e, cs) == McuParts(env, cs)
    decreases |cs|
  {
    hide SendsToMcu;
    if cs != [] {
      SameMcuParts(e, env, cs[1..]);
    }
  }

  lemma LocksSameVersion(env: Env, f: seq<u8>, header: Version, cs: seq<Command>, some: seq<Command>)
    ensures LocksAgree(env, f, FinalVersion(header, cs), some) == LocksAgree(env, f, header, some)
  {
    FinalLabel(header, cs);
    forall c ensures LockAgrees(env, f, FinalVersion(header, cs), c) == LockAgrees(env, f, header, c) {
      hide InPlace, SetPartial, FinalVersion;
    }
    hide LockAgrees;
  }

  /** A list that addresses the protected area without opening it is carried out only if what it
      compares there is in place already. */
  lemma SessionNeedsLocks(env: Env, f: seq<u8>, header: Version, p: Parsed)
    requires !Session(env, f, header, p).halted
    ensures LocksAgree(Opened(env, p.commands), f, header, p.commands)
  {
    hide Pass, Opened, LocksAgree, IsDowngrade;
    var cs := p.commands;
    PassNeedsLocks(Opened(env, cs), f, FinalVersion(header, cs), cs, Flashing(true));
    LocksSameVersion(Opened(env, cs), f, header, cs, cs);
  }
}
