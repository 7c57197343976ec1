// When the downgrade check protects an installed manifest.  It compares the update with
// the one manifest that the list starts last.  software/userland/src/updater/main.c

module DowngradeGuard {
  import opened Words
  import opened NorFlash
  import opened UpdateManifest
  import opened WriteLock
  import opened UpdaterSpec
  import opened UpdateEffect
  import opened UpdateCompletes

  /** The version block installed at `addr` is newer than `update`. */
  predicate IsNewer(f: seq<u8>, addr: nat, update: Version) {
    IsDowngrade(ReadFlash(f, addr, VERSION_SIZE), update)
  }

  /** No operation reaches the sector of `addr`. */
  ghost predicate LeftAlone(ops: seq<FlashOp>, addr: nat) {
    forall op, j: nat :: op in ops && j / SECTOR == addr / SECTOR ==> !Touches(op, j)
  }

  /** Every check of a session passes, except for the comparison of versions. */
  ghost predicate PassesChecks(env: Env, header: Version, p: Parsed) {
    && (forall c :: c in p.commands ==> !Refused(env, c))
    && p.end.Terminated?
    && Get16(header, 0) == UM_ID
  }

  /** A start outside the factory area. */
  predicate StartsOutside(c: Command) {
    c.StartManifest? && c.address >= FACTORY_END
  }

  lemma HeaderKept(header: Version, cs: seq<Command>, installed: Version)
    ensures var v := FinalVersion(header, cs);
            && Get16(v, 0) == Get16(header, 0)
            && IsDowngrade(installed, v) == IsDowngrade(installed, header)
  {
    FinalLabel(header, cs);
    var v := FinalVersion(header, cs);
    forall i | 0 <= i < 6 ensures v[i] == header[i] {
      assert v[i] == SetPartial(v, 0)[i] && header[i] == SetPartial(header, 0)[i];
    }
  }

  lemma {:induction false} LastStart(address: nat, cs: seq<Command>)
    ensures VersionAddress(address, cs) == address ||
            exists k :: 0 <= k < |cs| && cs[k].StartManifest? && cs[k].address == VersionAddress(address, cs)
    decreases |cs|
  {
    if cs != [] {
      LastStart(if cs[0].StartManifest? then cs[0].address else address, cs[1..]);
    }
  }

  /** A session that passes its other checks flashes unless the last manifest it starts lies
      outside the factory area and is newer. */
  lemma SessionFlashesIff(env: Env, f: seq<u8>, header: Version, p: Parsed)
    requires PassesChecks(env, header, p)
    ensures var last := VersionAddress(0, p.commands);
            Session(env, f, header, p) ==
              if last >= FACTORY_END && IsNewer(f, last, header) then Outcome([], true)
              else Pass(Opened(env, p.commands), f, FinalVersion(header, p.commands), p.commands, Flashing(true))
  {
    hide Refused, Pass, IsDowngrade, Opened;
    VerifyPassIsDry(env, f, header, p.commands);
    HeaderKept(header, p.commands, ReadFlash(f, VersionAddress(0, p.commands), VERSION_SIZE));
  }

  /** The number that orders versions: the major in bytes 2 and 3, then the minor in bytes 4 and 5. */
  function Release(v: Version): nat {
    65536 * (v[2] as int + 256 * v[3] as int) + v[4] as int + 256 * v[5] as int
  }

  /** The block begins as a manifest's version does. */
  predicate IsMarked(v: Version) {
    v[0] == 0x46 && v[1] == 0x57
  }

  /** Main result: a block is newer than an update exactly when it is marked and its version is the
      larger one, so that of two versions one at most is a downgrade of the other, exactly one
      when both are marked and differ, and none of an equal or higher one. */
  lemma DowngradeIsSmaller(installed: Version, update: Version)
    ensures IsDowngrade(installed, update) <==> IsMarked(installed) && Release(update) < Release(installed)
    ensures !(IsDowngrade(installed, update) && IsDowngrade(update, installed))
    ensures IsMarked(installed) && IsMarked(update) ==>
              (Release(update) == Release(installed) <==>
               !IsDowngrade(installed, update) && !IsDowngrade(update, installed))
  {
    assert Get16(installed, 0) == 0x5746 <==> IsMarked(installed);
    assert Get16(update, 0) == 0x5746 <==> IsMarked(update);
    SmallerPair(Get16(update, 2), Get16(update, 4), Get16(installed, 2), Get16(installed, 4));
  }

  /** Comparing majors, then minors, is comparing the numbers they make up. */
  lemma SmallerPair(major: u16, minor: u16, major': u16, minor': u16)
    ensures 65536 * major as int + minor as int < 65536 * major' as int + minor' as int <==>
              major < major' || (major == major' && minor < minor')
  {
  }

  /** Main result: a session whose other checks pass refuses exactly if the manifest started last
      is at 0x40000 or above, the chip has a marked block there, and the version in it is larger
      than the update's.  An equal or a higher version is flashed, with the lower 256 KiB open
      exactly if the last start is in them. */
  lemma OlderIsRefusedIff(env: Env, f: seq<u8>, header: Version, p: Parsed, installed: Version)
    requires (forall c :: c in p.commands ==> !Refused(env, c)) && p.end.Terminated? && IsMarked(header)
    requires forall i :: 0 <= i < 64 ==>
               var j := VersionAddress(0, p.commands) + i;
               installed[i] == if j < |f| then f[j] else 0xFF
    ensures var last := VersionAddress(0, p.commands);
            Session(env, f, header, p) ==
              if last >= 0x4_0000 && IsMarked(installed) && Release(header) < Release(installed) then Outcome([], true)
              else Pass(env.(locked := env.locked && last >= 0x4_0000), f, FinalVersion(header, p.commands), p.commands,
                        Flashing(true))
  {
    hide Refused, Pass, Session;
    var last := VersionAddress(0, p.commands);
    assert installed == ReadFlash(f, last, VERSION_SIZE);
    SessionFlashesIff(env, f, header, p);
    DowngradeIsSmaller(installed, header);
  }

  /** A flash pass that reaches a start erases the sector it names, unless that is protected. */
  lemma ReachedStartErases(env: Env, f: seq<u8>, v: Version, cs: seq<Command>, ph: Phase, i: nat)
    requires ph.Flashing? && i < |cs| && cs[i].StartManifest? && !Refused(env, cs[i])
    requires !Protected(env, cs[i].address) && !Pass(env, f, v, cs[..i], ph).halted
    ensures Erase(cs[i].address) in Pass(env, f, v, cs, ph).ops
    ensures i == 0 ==> Pass(env, f, v, cs, ph).ops[0] == Erase(cs[i].address)
  {
    hide Perform, Apply, NextVersion, Agrees, ShieldAll;
    var c, rest := cs[i], cs[i..];
    assert cs == cs[..i] + rest;
    PassConcat(env, f, v, cs[..i], rest, ph);
    var o := Pass(env, f, v, cs[..i], ph);
    var g, w, next := Apply(f, o.ops), FinalVersion(v, cs[..i]), PhaseAfter(env, cs[..i], ph);
    StillFlashing(env, cs[..i], ph);
    var q := RunCommand(env, g, w, c, next);
    BlockAbove(env, g, w, c);
    FirstIsErase(g, w, c.address);
    assert rest[0] == c && Pass(env, g, w, rest, next).ops[0] == q.ops[0] == Erase(c.address);
    assert i == 0 ==> rest == cs && o.ops == [];
  }

  lemma FirstIsErase(f: seq<u8>, v: Version, addr: nat)
    ensures var o := Perform(f, StartOps(v, addr));
            o.ops != [] && o.ops[0] == Erase(addr)
  {
  }

  /** The flash pass gets as far as command `i`. */
  ghost predicate Gets(env: Env, f: seq<u8>, header: Version, cs: seq<Command>, i: nat)
    requires i <= |cs|
  {
    && Runnable(env, f, cs[..i]) && Ready(f, FinalVersion(header, cs), cs[..i])
    && LocksAgree(Opened(env, cs), f, header, cs[..i]) && McuParts(env, cs[..i]) <= 1
  }

  lemma GetsThere(env: Env, f: seq<u8>, header: Version, cs: seq<Command>, i: nat)
    requires i <= |cs| && Gets(env, f, header, cs, i)
    ensures !Pass(Opened(env, cs), f, FinalVersion(header, cs), cs[..i], Flashing(true)).halted
  {
    hide Runnable, Ready, LocksAgree, Pass, McuParts, Opened;
    var e := Opened(env, cs);
    OpenedLayout(env, cs, f, cs[..i]);
    LocksSameVersion(e, f, header, cs, cs[..i]);
    PassCompletesIff(e, f, FinalVersion(header, cs), cs[..i], Flashing(true));
  }

  /** Main result: of a list whose other checks pass, a started manifest is left alone if and only
      if the manifest started last lies outside the factory area and, either, that one is newer
      than the update, when nothing at all is flashed, or the started one is in the factory area,
      which then stays locked. */
  lemma NewerManifestSurvivesIff(env: Env, f: seq<u8>, header: Version, p: Parsed, i: nat)
    requires PassesChecks(env, header, p)
    requires i < |p.commands| && p.commands[i].StartManifest?
    requires Gets(env, f, header, p.commands, i)
    ensures var last := VersionAddress(0, p.commands);
            var addr := p.commands[i].address;
            LeftAlone(Session(env, f, header, p).ops, addr) <==>
            last >= FACTORY_END && (IsNewer(f, last, header) || Protected(env, addr))
  {
    hide Pass, Refused, Session, IsNewer, Gets;
    var cs, v, e := p.commands, FinalVersion(header, p.commands), Opened(env, p.commands);
    var addr := cs[i].address;
    SessionFlashesIff(env, f, header, p);
    assert cs[i] in cs;
    OpenedSame(env, cs);
    if Protected(e, addr) {
      forall op, j: nat | op in Pass(e, f, v, cs, Flashing(true)).ops && j / SECTOR == addr / SECTOR
        ensures !Touches(op, j)
      {
        SameSide(SECTOR, 64, j, addr);
        if Touches(op, j) {
          PassStaysInReach(e, f, v, cs, Flashing(true), op, j);
        }
      }
    } else {
      GetsThere(env, f, header, cs, i);
      ReachedStartErases(e, f, v, cs, Flashing(true), i);
      assert Touches(Erase(addr), addr);
    }
  }

  /** No installed manifest outside the factory area that the list starts and that is newer than
      the update is ever erased, whatever the chip of this size holds. */
  ghost predicate Protects(env: Env, header: Version, p: Parsed, size: nat) {
    forall f: seq<u8>, c :: |f| == size && c in p.commands && StartsOutside(c) && IsNewer(f, c.address, header) ==>
      LeftAlone(Session(env, f, header, p).ops, c.address)
  }

  /** Every start outside the factory area names the manifest that is started last. */
  predicate StartsOneOutside(cs: seq<Command>) {
    forall c :: c in cs && StartsOutside(c) ==> c.address == VersionAddress(0, cs)
  }

  /** A chip that is blank but for version 65535.65535 at `addr`. */
  function NewestAt(size: nat, addr: nat): (f: seq<u8>)
    ensures |f| == size
  {
    seq(size, j => if j == addr then 0x46 else if j == addr + 1 then 0x57 else 0xFF)
  }

  lemma NewestIsNewer(size: nat, addr: nat, other: nat, header: Version)
    requires addr + VERSION_SIZE <= size && addr % SECTOR == 0 && other % SECTOR == 0 && other != addr
    requires !IsNewest(header)
    ensures IsNewer(NewestAt(size, addr), addr, header) && !IsNewer(NewestAt(size, addr), other, header)
  {
    var f := NewestAt(size, addr);
    assert forall i :: 2 <= i < 6 ==> ReadFlash(f, addr, VERSION_SIZE)[i] == 0xFF;
    assert ReadFlash(f, other, VERSION_SIZE)[0] == 0xFF;
  }

  /** No version is newer. */
  predicate IsNewest(v: Version) {
    Get16(v, 2) == 0xFFFF && Get16(v, 4) == 0xFFFF
  }

  /** Manifests clear of data and of a locked area, each finish started, at most one part for the
      microcontroller, and everything on a chip of this size. */
  ghost predicate Orderly(env: Env, cs: seq<Command>, size: nat) {
    && Apart(env, cs) && Paired(cs) && StaysOut(Opened(env, cs), cs) && McuParts(env, cs) <= 1
    && forall c :: c in cs ==> Fits(env, NewestAt(size, 0), c)
  }

  /** Main result: an older update can never replace a newer manifest outside the factory area if
      the list starts at most one of them, and starts that one last; and, for an orderly list,
      only if. */
  lemma NoDowngradeOutsideFactoryIff(env: Env, header: Version, p: Parsed, size: nat)
    requires PassesChecks(env, header, p)
    ensures StartsOneOutside(p.commands) || IsNewest(header) ==> Protects(env, header, p, size)
    ensures Orderly(env, p.commands, size) && Protects(env, header, p, size) ==>
              StartsOneOutside(p.commands) || IsNewest(header)
  {
    hide Refused, Session, IsNewer, Apart, Paired, Gets, StaysOut;
    var cs := p.commands;
    if IsNewest(header) {
      NothingIsNewer(header);
    } else if StartsOneOutside(cs) {
      forall f: seq<u8>, c | |f| == size && c in cs && StartsOutside(c) && IsNewer(f, c.address, header)
        ensures LeftAlone(Session(env, f, header, p).ops, c.address)
      {
        SessionFlashesIff(env, f, header, p);
      }
    } else if Orderly(env, cs, size) {
      var c := AnotherStart(cs);
      var i :| 0 <= i < |cs| && cs[i] == c;
      var f, last := NewestAt(size, c.address), VersionAddress(0, cs);
      LastStart(0, cs);
      AlignedStarts(env, cs);
      assert Fits(env, NewestAt(size, 0), c);
      NewestIsNewer(size, c.address, last, header);
      PrefixRuns(env, f, header, cs, i, size);
      NewerManifestSurvivesIff(env, f, header, p, i);
    }
  }

  lemma NothingIsNewer(header: Version)
    requires IsNewest(header)
    ensures forall f: seq<u8>, addr: nat :: !IsNewer(f, addr, header)
  {
  }

  lemma AnotherStart(cs: seq<Command>) returns (c: Command)
    requires !StartsOneOutside(cs)
    ensures c in cs && StartsOutside(c) && c.address != VersionAddress(0, cs)
  {
    c :| c in cs && StartsOutside(c) && c.address != VersionAddress(0, cs);
  }

  lemma AlignedStarts(env: Env, cs: seq<Command>)
    requires forall c :: c in cs ==> !Refused(env, c)
    ensures forall c :: c in cs && c.StartManifest? ==> c.address % SECTOR == 0
  {
    hide ChecksumOk;
  }

  lemma PrefixRuns(env: Env, f: seq<u8>, header: Version, cs: seq<Command>, i: nat, size: nat)
    requires i <= |cs| && |f| == size && Orderly(env, cs, size)
    requires forall c :: c in cs ==> !Refused(env, c)
    ensures Gets(env, f, header, cs, i)
  {
    hide Refused, Labelled, Reaches, LockAgrees;
    assert forall c :: c in cs[..i] ==> c in cs;
    forall k | 0 <= k < i && cs[k].FinishManifest? ensures StartedBefore(cs[..i], k) {
      assert StartedBefore(cs, k);
      var m :| 0 <= m < k && cs[m].StartManifest? && cs[m].address == cs[k].address;
      assert cs[..i][m] == cs[m];
    }
    StaysOutAgrees(Opened(env, cs), f, header, cs[..i]);
    FewerMcuParts(env, cs, i);
  }

  lemma {:induction false} FewerMcuParts(env: Env, cs: seq<Command>, i: nat)
    requires i <= |cs|
    ensures McuParts(env, cs[..i]) <= McuParts(env, cs)
    decreases i
  {
    if i > 0 {
      assert cs[..i][1..] == cs[1..][..i - 1];
      FewerMcuParts(env, cs[1..], i - 1);
    }
  }

  /** manifest/full_update.txt starts the manifests at 0x4F000 and at 0xF000, in this order, and
      no other: the one at 0x4F000 is erased although it is newer. */
  lemma FullUpdateErasesNewer(env: Env, f: seq<u8>, header: Version, p: Parsed)
    requires PassesChecks(env, header, p)
    requires |p.commands| >= 3
    requires p.commands[..3] == [CheckBoardRange(0, 3), StartManifest(323584), StartManifest(61440)]
    requires forall c :: c in p.commands[3..] ==> !c.StartManifest?
    requires IsNewer(f, 323584, header)
    ensures Session(env, f, header, p).ops != [] && Session(env, f, header, p).ops[0] == Erase(323584)
  {
    hide Refused, Session, IsNewer, Perform, Apply;
    var cs, v := p.commands, FinalVersion(header, p.commands);
    var a, b, c := cs[0], cs[1], cs[2];
    assert [a, b, c] == cs[..3];
    NoMoreStarts(61440, cs[3..]);
    assert VersionAddress(0, cs) == 61440 by {
      assert cs[1..][1..] == cs[2..] && cs[2..][1..] == cs[3..];
      assert VersionAddress(0, cs[1..]) == VersionAddress(323584, cs[2..]) == VersionAddress(61440, cs[3..]);
    }
    SessionFlashesIff(env, f, header, p);
    assert a in cs && b in cs;
    OpenedSame(env, cs);
    var e := Opened(env, cs);
    CheckDoesNothing(e, f, v, a);
    assert cs[1..][..0] == [];
    ReachedStartErases(e, f, v, cs[1..], Flashing(true), 0);
  }

  lemma CheckDoesNothing(env: Env, f: seq<u8>, v: Version, c: Command)
    requires c.CheckBoardRange? && !Refused(env, c)
    ensures RunCommand(env, f, v, c, Flashing(true)) == Outcome([], false) && Apply(f, []) == f
    ensures NextPhase(env, c, Flashing(true)) == Flashing(true) && NextVersion(v, c) == v
  {
    ApplyNone(f);
    assert CommandOps(env, v, c) == [];
  }

  /** In the opposite order the lock stays on: unless the manifest at 0xF000 happens to read as the
      one about to be started, the update halts there and has changed nothing. */
  lemma SwappedStartsHalt(env: Env, f: seq<u8>, header: Version, p: Parsed)
    requires PassesChecks(env, header, p) && env.locked
    requires |p.commands| >= 2 && p.commands[..2] == [StartManifest(61440), StartManifest(323584)]
    requires forall c :: c in p.commands[2..] ==> !c.StartManifest?
    requires ReadFlash(f, 61440, VERSION_SIZE) != SetPartial(header, 0xFF)
    ensures Session(env, f, header, p).halted && Apply(f, Session(env, f, header, p).ops) == f
  {
    hide Refused, Session, IsNewer, Perform, Apply, SetPartial;
    var cs, v := p.commands, FinalVersion(header, p.commands);
    assert [cs[0], cs[1]] == cs[..2];
    NoMoreStarts(323584, cs[2..]);
    assert cs[1..][1..] == cs[2..];
    assert VersionAddress(0, cs) == VersionAddress(61440, cs[1..]) == VersionAddress(323584, cs[2..]);
    SessionFlashesIff(env, f, header, p);
    FinalLabel(header, cs);
    assert cs[0] in cs;
    ApplyNone(f);
    BlockBelow(env, f, v, cs[0]);
    LockedStartChangesNothing(env, f, v, cs[0]);
  }

  lemma LockedStartChangesNothing(env: Env, f: seq<u8>, v: Version, c: Command)
    requires c.StartManifest? && env.locked && c.address < FACTORY_END
    ensures Apply(f, Perform(f, CommandOps(env, v, c)).ops) == f
  {
    hide CommandOps, AfterAll, Perform, Touches, SetPartial;
    var ops := Perform(f, CommandOps(env, v, c)).ops;
    PerformIsPrefix(f, CommandOps(env, v, c));
    BelowOps(env, v, c);
    forall j | 0 <= j < |f| ensures AfterAll(ops, j, f[j]) == f[j] {
      forall op | op in ops ensures !Touches(op, j) {
        NothingTouched(op, j);
      }
      UntouchedStays(ops, j, f[j]);
    }
  }

  lemma NothingTouched(op: FlashOp, j: nat)
    ensures op.Ignored? || op.ReadBack? ==> !Touches(op, j)
  {
  }

  lemma {:induction false} NoMoreStarts(address: nat, cs: seq<Command>)
    requires forall c :: c in cs ==> !c.StartManifest?
    ensures VersionAddress(address, cs) == address
    decreases |cs|
  {
    if cs != [] {
      NoMoreStarts(address, cs[1..]);
    }
  }
}
