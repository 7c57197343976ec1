// Running an update again after power was lost in it.  software/userland/src/updater/main.c

module UpdateRerun {
  import opened Words
  import opened NorFlash
  import opened UpdateManifest
  import opened WriteLock
  import opened UpdaterSpec
  import opened UpdateEffect
  import opened UpdateCompletes
  import opened DowngradeGuard
  import opened CrashSafety

  /** An update that, version check aside, runs to its end on this flash. */
  ghost predicate Runs(env: Env, f: seq<u8>, header: Version, p: Parsed) {
    && PassesChecks(env, header, p)
    && Apart(env, p.commands) && Paired(p.commands) && McuParts(env, p.commands) <= 1
    && (forall c :: c in p.commands ==> Fits(env, f, c))
    && LocksAgree(Opened(env, p.commands), f, header, p.commands)
  }

  lemma SessionTouches(env: Env, f: seq<u8>, header: Version, p: Parsed, op: FlashOp, j: nat)
    requires op in Session(env, f, header, p).ops && Touches(op, j)
    ensures !Protected(Opened(env, p.commands), j)
    ensures exists c :: c in p.commands && Reaches(env, c, j)
  {
    hide Touches, Pass, Reaches, Opened, IsDowngrade;
    var e, v := Opened(env, p.commands), FinalVersion(header, p.commands);
    OpenedLayout(env, p.commands, f, p.commands);
    PassStaysInReach(e, f, v, p.commands, Flashing(true), op, j);
  }

  /** A byte that no command reaches, or that is protected, survives a crash. */
  lemma CrashKeeps(env: Env, f: seq<u8>, header: Version, p: Parsed, g: seq<u8>, j: nat)
    requires CrashState(f, Session(env, f, header, p).ops, g) && j < |f|
    requires Protected(Opened(env, p.commands), j) || forall c :: c in p.commands ==> !Reaches(env, c, j)
    ensures |g| == |f| && g[j] == f[j]
  {
    hide CrashState, Touches, Reaches, Session, Protected, Opened;
    var ops := Session(env, f, header, p).ops;
    forall op | op in ops ensures !Touches(op, j) {
      if Touches(op, j) {
        SessionTouches(env, f, header, p, op, j);
      }
    }
    CrashUntouched(f, ops, g, j);
  }

  /** Once a data part covers a byte, what it was before makes no difference. */
  lemma {:induction false} InstalledForgets(env: Env, cs: seq<Command>, j: nat, x: u8, y: u8)
    requires exists c :: c in cs && IsDataPart(env, c) && Reaches(env, c, j)
    ensures Installed(env, cs, j, x) == Installed(env, cs, j, y)
    decreases |cs|
  {
    hide PartData;
    var c := cs[0];
    if IsDataPart(env, c) {
      InsideIsCovered(c.address, c.length, j);
    }
    if !(IsDataPart(env, c) && Reaches(env, c, j)) {
      hide Reaches, IsDataPart, Flashed;
      var d :| d in cs && IsDataPart(env, d) && Reaches(env, d, j);
      assert d in cs[1..];
      var rest := cs[1..];
      InstalledForgets(env, rest, j,
        if IsDataPart(env, c) then Flashed(c.address, PartData(env, c), j, x) else x,
        if IsDataPart(env, c) then Flashed(c.address, PartData(env, c), j, y) else y);
    }
  }

  lemma CrashRuns(env: Env, f: seq<u8>, header: Version, p: Parsed, g: seq<u8>)
    requires Runs(env, f, header, p) && CrashState(f, Session(env, f, header, p).ops, g)
    ensures Runs(env, g, header, p)
  {
    hide CrashState, Session, LockAgrees, Opened, Reaches, Refused, Apart, Paired, McuParts, Protected;
    CrashLength(f, Session(env, f, header, p).ops, g);
    var e, cs := Opened(env, p.commands), p.commands;
    forall j | 0 <= j < |f| && Protected(e, j) ensures g[j] == f[j] {
      CrashKeeps(env, f, header, p, g, j);
    }
    forall c | c in cs ensures LockAgrees(e, g, header, c) {
      SameLock(e, f, g, header, CheckBoardRange(0, 0), c);
    }
  }

  /** The pass of a session that flashes reaches its end. */
  lemma RunsToTheEnd(env: Env, f: seq<u8>, header: Version, p: Parsed)
    requires Runs(env, f, header, p)
    ensures !Pass(Opened(env, p.commands), f, FinalVersion(header, p.commands), p.commands, Flashing(true)).halted
  {
    hide Pass, LocksAgree, Opened, Refused, Apart, Paired, McuParts;
    var e, v, cs := Opened(env, p.commands), FinalVersion(header, p.commands), p.commands;
    OpenedLayout(env, cs, f, cs);
    LocksSameVersion(e, f, header, cs, cs);
    PairedIsReady(f, v, cs);
    PassCompletesIff(e, f, v, cs, Flashing(true));
  }

  /** What a rerun that reaches its end leaves outside the manifests is what the first run would
      have left. */
  lemma RerunByte(env: Env, f: seq<u8>, header: Version, p: Parsed, g: seq<u8>, j: nat)
    requires Runs(env, f, header, p) && CrashState(f, Session(env, f, header, p).ops, g)
    requires Runs(env, g, header, p) && j < |f| == |g| && !InManifest(env, p.commands, j)
    ensures var e := Opened(env, p.commands);
            AfterAll(Pass(e, g, FinalVersion(header, p.commands), p.commands, Flashing(true)).ops, j, g[j])
            == if Protected(e, j) then f[j] else Installed(env, p.commands, j, f[j])
  {
    hide CrashState, Session, LocksAgree, Opened, Reaches, Refused, Apart, Paired, McuParts, Protected, Pass, Installed;
    var e, v, cs := Opened(env, p.commands), FinalVersion(header, p.commands), p.commands;
    RunsToTheEnd(env, g, header, p);
    OpenedLayout(env, cs, g, cs);
    PassInstalls(e, g, v, cs, Flashing(true), j, g[j]);
    SameInstalled(e, env, cs, j, g[j]) by { OpenedSame(env, cs); }
    if exists c :: c in cs && IsDataPart(env, c) && Reaches(env, c, j) {
      InstalledForgets(env, cs, j, g[j], f[j]);
      if Protected(e, j) {
        CrashKeeps(env, f, header, p, g, j);
      }
    } else {
      forall c | c in cs ensures !Reaches(env, c, j) {
        if Reaches(env, c, j) {
          NoPartReaches(env, c, j);
        }
      }
      CrashKeeps(env, f, header, p, g, j);
    }
  }

  /** Main result: wherever power was lost, running the update again installs everything, unless
      the manifest started last lies outside the factory area and now claims a newer version,
      when nothing can be flashed any more. */
  lemma RerunInstallsIff(env: Env, f: seq<u8>, header: Version, p: Parsed, g: seq<u8>)
    requires Runs(env, f, header, p) && CrashState(f, Session(env, f, header, p).ops, g)
    ensures var o, last := Session(env, g, header, p), VersionAddress(0, p.commands);
            && (o.halted <==> last >= FACTORY_END && IsNewer(g, last, header))
            && (o.halted ==> o.ops == [])
            && (!o.halted ==> Complete(Opened(env, p.commands), f, p.commands, Apply(g, o.ops)))
  {
    hide CrashState, Session, LockAgrees, Opened, Reaches, Refused, Apart, Paired, McuParts, Protected, Pass,
         Installed, IsNewer, InPlace;
    var e, cs := Opened(env, p.commands), p.commands;
    CrashLength(f, Session(env, f, header, p).ops, g);
    CrashRuns(env, f, header, p, g);
    RunsToTheEnd(env, g, header, p);
    SessionFlashesIff(env, g, header, p);
    var o := Session(env, g, header, p);
    if !o.halted {
      OpenedLayout(env, cs, f, cs);
      OpenedManifests(env, cs);
      forall j | 0 <= j < |f| && !InManifest(e, cs, j)
        ensures Apply(g, o.ops)[j] == if Protected(e, j) then f[j] else Installed(e, cs, j, f[j])
      {
        RerunByte(env, f, header, p, g, j);
        SameInstalled(e, env, cs, j, f[j]) by { OpenedSame(env, cs); }
      }
      forall c | e.locked && c in cs && IsDataPart(e, c) ensures InPlace(f, c.address, PartData(e, c)) {
        LockedPart(e, f, header, c);
      }
    }
  }

  lemma OpenedManifests(env: Env, cs: seq<Command>)
    ensures forall j: nat :: InManifest(Opened(env, cs), cs, j) == InManifest(env, cs, j)
  {
    OpenedLayout(env, cs, [], cs);
    hide Reaches, Opened;
  }

  lemma LockedPart(env: Env, f: seq<u8>, v: Version, c: Command)
    requires env.locked && IsDataPart(env, c) && LockAgrees(env, f, v, c)
    ensures InPlace(f, c.address, PartData(env, c))
  {
  }

  // ----- the unlucky state -----

  /** The sector at `a` erased, and of the version block only the two id bytes written. */
  function TornStart(f: seq<u8>, a: nat): (g: seq<u8>)
    requires a + VERSION_SIZE <= |f|
  {
    Apply(f, [Erase(a)])[a := 0x46][a + 1 := 0x57]
  }

  lemma TornStartIsTorn(f: seq<u8>, v: Version, a: nat)
    requires a % SECTOR == 0 && a + VERSION_SIZE <= |f| && Get16(v, 0) == UM_ID
    ensures Torn(Program(a, SetPartial(v, 0xFF)), Apply(f, [Erase(a)]), TornStart(f, a))
  {
    var u := SetPartial(v, 0xFF);
    assert u[0] == 0x46 && u[1] == 0x57;
    PageOf(a, VERSION_SIZE, a);
    PageOf(a, VERSION_SIZE, a + 1);
  }

  lemma TornStartIsNewer(f: seq<u8>, a: nat, header: Version)
    requires a % SECTOR == 0 && a + VERSION_SIZE <= |f| && !IsNewest(header)
    ensures IsNewer(TornStart(f, a), a, header)
  {
    var g := TornStart(f, a);
    forall i | 2 <= i < 6 ensures ReadFlash(g, a, VERSION_SIZE)[i] == 0xFF {
      AfterOne(Erase(a), a + i, f[a + i]);
    }
  }

  lemma StartFirst(env: Env, f: seq<u8>, v: Version, cs: seq<Command>, ph: Phase)
    requires ph.Flashing? && cs != [] && cs[0].StartManifest? && !Refused(env, cs[0])
    requires !Protected(env, cs[0].address)
    ensures StartOps(v, cs[0].address) <= Pass(env, f, v, cs, ph).ops
  {
    hide Apply, NextVersion, ShieldAll, Agrees, StartOps;
    BlockAbove(env, f, v, cs[0]);
    AllPerformed(f, v, cs[0].address);
  }

  lemma AllPerformed(f: seq<u8>, v: Version, a: nat)
    ensures Perform(f, StartOps(v, a)).ops == StartOps(v, a)
  {
    hide Apply, SetPartial, ReadFlash;
    var u := SetPartial(v, 0xFF);
    var blind, read := [Erase(a), Program(a, u)], [ReadBack(a, u)];
    assert StartOps(v, a) == blind + read;
    PerformBlind(f, blind);
    PerformConcat(f, blind, read);
    assert read[1..] == [] && read + [] == read;
  }

  /** manifest/user_update.txt can end there: if power is lost while the version block of its only
      start is written, the half-written block can read as version 65535.65535, and every rerun of
      the update refuses to flash. */
  lemma TornStartBlocksRerun(env: Env, f: seq<u8>, header: Version, p: Parsed)
    requires PassesChecks(env, header, p) && !IsNewest(header)
    requires |p.commands| >= 2 && p.commands[..2] == [CheckBoardRange(0, 3), StartManifest(323584)]
    requires forall c :: c in p.commands[2..] ==> !c.StartManifest?
    requires 323584 + VERSION_SIZE <= |f| && !IsNewer(f, 323584, header)
    ensures var g := TornStart(f, 323584);
            && CrashState(f, Session(env, f, header, p).ops, g)
            && Session(env, g, header, p) == Outcome([], true)
  {
    hide Session, Refused, IsNewer, Apply, Torn, TornStart, SetPartial;
    var a, cs := 323584, p.commands;
    var e, v, g := Opened(env, cs), FinalVersion(header, p.commands), TornStart(f, 323584);
    assert [cs[0], cs[1]] == cs[..2];
    NoMoreStarts(a, cs[2..]);
    assert cs[1..][1..] == cs[2..];
    assert VersionAddress(0, cs) == VersionAddress(0, cs[1..]) == VersionAddress(a, cs[2..]);
    SessionFlashesIff(env, f, header, p);
    SessionFlashesIff(env, g, header, p);
    TornStartIsNewer(f, a, header);
    assert cs[0] in cs && cs[1] in cs;
    OpenedSame(env, cs);
    CheckDoesNothing(e, f, v, cs[0]);
    StartFirst(e, f, v, cs[1..], Flashing(true));
    var ops := Session(env, f, header, p).ops;
    assert ops == Pass(e, f, v, cs[1..], Flashing(true)).ops;
    HeaderKept(header, cs, ReadFlash(f, a, VERSION_SIZE));
    TornStartIsTorn(f, v, a);
    assert StartOps(v, a)[..1] == [Erase(a)];
    assert ops[..1] == [Erase(a)] && ops[1] == Program(a, SetPartial(v, 0xFF));
    assert CrashAt(f, ops, 1, g);
  }
}
