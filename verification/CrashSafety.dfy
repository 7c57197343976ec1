// Power loss in the middle of an update.  A crash leaves some prefix of the flash
// operations done and possibly the next one torn.

module CrashSafety {
  import opened Words
  import opened NorFlash
  import opened UpdateManifest
  import opened WriteLock
  import opened UpdaterSpec
  import opened UpdateEffect
  import opened UpdateCompletes
  import Updater

  /** `g` is what `f` can look like after `op` was interrupted: nothing outside its reach changed,
      and programming a one leaves a bit alone. */
  ghost predicate Torn(op: FlashOp, f: seq<u8>, g: seq<u8>) {
    && |g| == |f|
    && forall j :: 0 <= j < |f| ==>
         && (!Touches(op, j) ==> g[j] == f[j])
         && (op.Program? && Touches(op, j) && op.bytes[(j - op.addr) % PAGE] == 0xFF ==> g[j] == f[j])
  }

  /** So an interrupted erase may leave anything in its sector, and an interrupted program anything
      at the bytes it was to change, and nothing else differs. */
  lemma TornIs(f: seq<u8>, g: seq<u8>, addr: nat, bytes: seq<u8>)
    requires |g| == |f|
    ensures Torn(Erase(addr), f, g) <==> forall j :: 0 <= j < |f| && j / 4096 != addr / 4096 ==> g[j] == f[j]
    ensures addr % 256 + |bytes| <= 256 ==>
              (Torn(Program(addr, bytes), f, g) <==>
               forall j :: 0 <= j < |f| && !(addr <= j < addr + |bytes| && bytes[j - addr] != 0xFF) ==> g[j] == f[j])
  {
    if addr % 256 + |bytes| <= 256 {
      forall j: nat
        ensures Touches(Program(addr, bytes), j) <==> addr <= j < addr + |bytes|
        ensures Touches(Program(addr, bytes), j) ==> (j - addr) % PAGE == j - addr
      {
        WithinPage(addr, |bytes|, j);
      }
    }
  }

  lemma WithinPage(addr: nat, n: nat, j: nat)
    requires addr % 256 + n <= 256
    ensures j / PAGE == addr / PAGE && (j - addr) % PAGE < n <==> addr <= j < addr + n
    ensures addr <= j < addr + n ==> (j - addr) % PAGE == j - addr
  {
    var q := addr / 256;
    if addr <= j < addr + n {
      assert j / 256 == q;
    } else if j / 256 == q {
      assert j < addr ==> (j - addr) % PAGE == j - addr + PAGE;
      assert j >= addr + n ==> (j - addr) % PAGE == j - addr;
    }
  }

  /** What the flash can hold if power fails somewhere during `ops`, or once they are done. */
  ghost predicate CrashState(f: seq<u8>, ops: seq<FlashOp>, g: seq<u8>) {
    exists n :: 0 <= n <= |ops| && CrashAt(f, ops, n, g)
  }

  ghost predicate CrashAt(f: seq<u8>, ops: seq<FlashOp>, n: nat, g: seq<u8>)
    requires n <= |ops|
  {
    g == Apply(f, ops[..n]) || (n < |ops| && Torn(ops[n], Apply(f, ops[..n]), g))
  }

  /** The shape of the shipped manifests: starts, then data parts, then finishes. */
  predicate Phases(cs: seq<Command>, a: nat, b: nat) {
    && a <= b <= |cs|
    && (forall c :: c in cs[..a] ==> !IsPart(c) && !c.FinishManifest?)
    && (forall c :: c in cs[a..b] ==> !IsBookkeeping(c))
    && (forall c :: c in cs[b..] ==> !IsPart(c) && !c.StartManifest?)
  }

  predicate InManifest(env: Env, cs: seq<Command>, j: nat) {
    exists c :: c in cs && IsBookkeeping(c) && Reaches(env, c, j)
  }

  /** No byte outside the manifests' sectors differs from the original flash. */
  predicate Unstarted(env: Env, f: seq<u8>, cs: seq<Command>, g: seq<u8>) {
    |g| == |f| && forall j :: 0 <= j < |f| && !InManifest(env, cs, j) ==> g[j] == f[j]
  }

  /** Outside the manifests' sectors, every part for this board is in place; in a protected area
      it was before. */
  predicate Complete(env: Env, f: seq<u8>, cs: seq<Command>, g: seq<u8>) {
    && |g| == |f|
    && (forall j :: 0 <= j < |f| && !InManifest(env, cs, j) ==>
          g[j] == if Protected(env, j) then f[j] else Installed(env, cs, j, f[j]))
    && (env.locked ==> forall c :: c in cs && IsDataPart(env, c) ==> InPlace(f, c.address, PartData(env, c)))
  }

  /** Every manifest that the update starts has its partial_install byte set. */
  predicate MarkedPartial(cs: seq<Command>, g: seq<u8>) {
    forall c :: c in cs && c.StartManifest? && c.address + PARTIAL < |g| ==> g[c.address + PARTIAL] == 0xFF
  }

  // ----- crash states of operation lists -----

  lemma CrashSplit(f: seq<u8>, x: seq<FlashOp>, y: seq<FlashOp>, g: seq<u8>)
    requires CrashState(f, x + y, g)
    ensures CrashState(f, x, g) || CrashState(Apply(f, x), y, g)
  {
    hide Torn, Touches, AndByte;
    var n :| 0 <= n <= |x + y| && CrashAt(f, x + y, n, g);
    if n < |x| {
      assert (x + y)[..n] == x[..n];
      assert CrashAt(f, x, n, g);
    } else {
      var k := n - |x|;
      assert (x + y)[..n] == x + y[..k];
      ApplyConcat(f, x, y[..k]);
      assert CrashAt(Apply(f, x), y, k, g);
    }
  }

  lemma CrashUntouched(f: seq<u8>, ops: seq<FlashOp>, g: seq<u8>, j: nat)
    requires CrashState(f, ops, g) && Untouched(ops, j) && j < |f|
    ensures |g| == |f| && g[j] == f[j]
  {
    hide Touches, AndByte;
    var n :| 0 <= n <= |ops| && CrashAt(f, ops, n, g);
    UntouchedStays(ops[..n], j, f[j]);
  }

  // ----- the marker byte -----

  lemma {:induction false} OnesStay(ops: seq<FlashOp>, m: nat)
    requires forall op :: op in ops ==> After(op, m, 0xFF) == 0xFF
    ensures AfterAll(ops, m, 0xFF) == 0xFF
  {
    if ops != [] {
      OnesStay(ops[1..], m);
    }
  }

  lemma StartKeepsMarker(locked: bool, v: Version, addr: nat, m: nat, op: FlashOp)
    requires addr % SECTOR == 0 && m % SECTOR == PARTIAL && op in ShieldAll(locked, StartOps(v, addr))
    ensures After(op, m, 0xFF) == 0xFF
  {
    var i :| 0 <= i < 3 && op == Shield(locked, StartOps(v, addr)[i]);
    SameEffect(locked, StartOps(v, addr)[i], m, 0xFF);
    AskedStartKeepsMarker(v, addr, m, StartOps(v, addr)[i]);
  }

  lemma AskedStartKeepsMarker(v: Version, addr: nat, m: nat, op: FlashOp)
    requires addr % SECTOR == 0 && m % SECTOR == PARTIAL && op in StartOps(v, addr)
    ensures After(op, m, 0xFF) == 0xFF
  {
    AndByteFacts(0xFF, 0xFF);
    if op.Program? && Touches(op, m) {
      assert m - addr == PARTIAL;
    }
  }

  /** Starts, and parts that stay clear of it, keep a marker byte set, however the pass ends. */
  lemma {:induction false} MarkerStays(env: Env, f: seq<u8>, v: Version, cs: seq<Command>, ph: Phase, m: nat)
    requires m % SECTOR == PARTIAL
    requires forall c :: c in cs ==> !c.FinishManifest? && !(IsDataPart(env, c) && Reaches(env, c, m))
    ensures AfterAll(Pass(env, f, v, cs, ph).ops, m, 0xFF) == 0xFF
    decreases |cs|
  {
    hide ChecksumOk, AndByte, Perform, StartOps, PartOps, Reaches, NextVersion, NextPhase, ShieldAll;
    if cs != [] {
      var c := cs[0];
      var o := RunCommand(env, f, v, c, ph);
      PerformIsPrefix(f, CommandOps(env, v, c));
      assert c in cs;
      forall op | op in o.ops ensures After(op, m, 0xFF) == 0xFF {
        if c.StartManifest? {
          StartKeepsMarker(env.locked, v, c.address, m, op);
        } else if Touches(op, m) {
          CommandStaysInReach(env, v, c, op, m);
        }
      }
      OnesStay(o.ops, m);
      if !o.halted {
        var g, w, next := Apply(f, o.ops), NextVersion(v, c), NextPhase(env, c, ph);
        AfterConcat(o.ops, Pass(env, g, w, cs[1..], next).ops, m, 0xFF);
        assert forall c :: c in cs[1..] ==> c in cs;
        MarkerStays(env, g, w, cs[1..], next, m);
      }
    }
  }

  lemma StartSetsMarker(v: Version, addr: nat, x: u8)
    requires addr % SECTOR == 0
    ensures AfterAll(StartOps(v, addr), addr + PARTIAL, x) == 0xFF
  {
    var ops := StartOps(v, addr);
    assert ops[1..] == [ops[1], ops[2]] && ops[1..][1..] == [ops[2]];
    AndByteFacts(0xFF, 0xFF);
    AfterTwo(ops[1], ops[2], [], addr + PARTIAL, 0xFF);
    assert ops[1..] == [ops[1], ops[2]] + [];
  }

  /** Once a run of starts is through, every manifest it started outside a protected area is marked. */
  lemma {:induction false} StartsMark(env: Env, f: seq<u8>, v: Version, cs: seq<Command>, ph: Phase, c: Command, x: u8)
    requires forall d :: d in cs ==> !IsPart(d) && !d.FinishManifest?
    requires c in cs && c.StartManifest? && ph.Flashing? && !Pass(env, f, v, cs, ph).halted
    requires !Protected(env, c.address + PARTIAL)
    ensures AfterAll(Pass(env, f, v, cs, ph).ops, c.address + PARTIAL, x) == 0xFF
    decreases |cs|
  {
    hide AndByte, Perform, StartOps, PartOps, Reaches, NextVersion, AfterAll, ShieldAll;
    var o := RunCommand(env, f, v, cs[0], ph);
    var g, w, next := Apply(f, o.ops), NextVersion(v, cs[0]), NextPhase(env, cs[0], ph);
    var m := c.address + PARTIAL;
    AfterConcat(o.ops, Pass(env, g, w, cs[1..], next).ops, m, x);
    if c == cs[0] {
      PerformIsPrefix(f, CommandOps(env, v, c));
      ShieldAfter(env.locked, StartOps(v, c.address), m, x);
      StartSetsMarker(v, c.address, x);
      MarkerStays(env, g, w, cs[1..], next, m);
    } else {
      StartsMark(env, g, w, cs[1..], next, c, AfterAll(o.ops, m, x));
    }
  }

  // ----- the three phases -----

  lemma {:induction false} InstalledSkips(env: Env, a: seq<Command>, b: seq<Command>, c: seq<Command>, j: nat, x: u8)
    requires forall d :: d in a + c ==> !IsPart(d)
    ensures Installed(env, a + b + c, j, x) == Installed(env, b, j, x)
    decreases |a| + |b| + |c|
  {
    hide Flashed, PartData;
    if a != [] {
      assert (a + b + c)[1..] == a[1..] + b + c;
      assert forall d :: d in a[1..] + c ==> d in a + c;
      assert a[0] in a + c;
      InstalledSkips(env, a[1..], b, c, j, x);
    } else if b != [] {
      assert (a + b + c)[1..] == a + b[1..] + c;
      var y := if IsDataPart(env, b[0]) then
                 Flashed(b[0].address, PartData(env, b[0]), j, x) else x;
      InstalledSkips(env, a, b[1..], c, j, y);
    } else if c != [] {
      assert (a + b + c)[1..] == a + b + c[1..];
      assert forall d :: d in a + c[1..] ==> d in a + c;
      assert c[0] in a + c;
      InstalledSkips(env, a, b, c[1..], j, x);
    }
  }

  /** A crash during commands none of which is a data part leaves the data alone. */
  lemma CrashWithoutParts(env: Env, f: seq<u8>, v: Version, cs: seq<Command>, ph: Phase, all: seq<Command>, g: seq<u8>)
    requires forall c :: c in cs ==> c in all && !IsPart(c)
    requires CrashState(f, Pass(env, f, v, cs, ph).ops, g)
    ensures Unstarted(env, f, all, g)
  {
    hide CrashState, Touches, Reaches, Pass;
    var ops := Pass(env, f, v, cs, ph).ops;
    assert |g| == |f| by { CrashLength(f, ops, g); }
    forall j | 0 <= j < |f| && !InManifest(env, all, j) ensures g[j] == f[j] {
      forall op | op in ops ensures !Touches(op, j) {
        if Touches(op, j) {
          PassStaysInReach(env, f, v, cs, ph, op, j);
          var c :| c in cs && Reaches(env, c, j);
          NoPartReaches(env, c, j);
        }
      }
      CrashUntouched(f, ops, g, j);
    }
  }

  lemma CrashLength(f: seq<u8>, ops: seq<FlashOp>, g: seq<u8>)
    requires CrashState(f, ops, g)
    ensures |g| == |f|
  {
    hide Touches;
  }

  lemma NoPartReaches(env: Env, c: Command, j: nat)
    requires Reaches(env, c, j)
    ensures IsBookkeeping(c) || IsDataPart(env, c)
  {
  }

  /** A crash among the data parts, after all the starts, leaves every manifest marked. */
  lemma CrashAmongParts(env: Env, f: seq<u8>, v: Version, cs: seq<Command>, part: seq<Command>, ph: Phase, g: seq<u8>)
    requires forall c :: c in part ==> c in cs && !IsBookkeeping(c)
    requires Apart(env, cs) && MarkedPartial(cs, f)
    requires forall c :: c in cs && c.StartManifest? ==> c.address % SECTOR == 0
    requires CrashState(f, Pass(env, f, v, part, ph).ops, g)
    ensures MarkedPartial(cs, g)
  {
    hide CrashState, Touches, Pass, Reaches;
    var ops := Pass(env, f, v, part, ph).ops;
    CrashLength(f, ops, g);
    forall c | c in cs && c.StartManifest? && c.address + PARTIAL < |g| ensures g[c.address + PARTIAL] == 0xFF {
      var m := c.address + PARTIAL;
      forall op | op in ops ensures !Touches(op, m) {
        if Touches(op, m) {
          PassStaysInReach(env, f, v, part, ph, op, m);
          var d :| d in part && Reaches(env, d, m);
          NoPartReaches(env, d, m);
          StartReachesMarker(env, c);
        }
      }
      CrashUntouched(f, ops, g, m);
    }
  }

  lemma StartReachesMarker(env: Env, c: Command)
    requires c.StartManifest? && c.address % SECTOR == 0
    ensures Reaches(env, c, c.address + PARTIAL)
  {
  }

  lemma AfterStarts(env: Env, f: seq<u8>, v: Version, cs: seq<Command>, starts: seq<Command>, ph: Phase)
    requires forall c :: c in cs && c.StartManifest? ==> c in starts
    requires forall c :: c in starts ==> !IsPart(c) && !c.FinishManifest?
    requires ph.Flashing? && !Pass(env, f, v, starts, ph).halted
    ensures MarkedPartial(cs, Apply(f, Pass(env, f, v, starts, ph).ops))
    ensures forall c :: c in cs && c.StartManifest? ==> c.address % SECTOR == 0
  {
    hide Pass, AfterAll, LockAgrees;
    forall c | c in cs && c.StartManifest? ensures c.address % SECTOR == 0 {
      HaltsWhenRefused(env, f, v, starts, ph, c);
    }
    PassNeedsLocks(env, f, v, starts, ph);
    forall c | c in cs && c.StartManifest? && c.address + PARTIAL < |f|
      ensures AfterAll(Pass(env, f, v, starts, ph).ops, c.address + PARTIAL, f[c.address + PARTIAL]) == 0xFF
    {
      var m := c.address + PARTIAL;
      if Protected(env, m) {
        PassLeavesOthers(env, f, v, starts, ph, m, f[m]);
        LockedStartIsMarked(env, f, v, c);
      } else {
        StartsMark(env, f, v, starts, ph, c, f[m]);
      }
    }
  }

  lemma LockedStartIsMarked(env: Env, f: seq<u8>, v: Version, c: Command)
    requires c.StartManifest? && LockAgrees(env, f, v, c) && Protected(env, c.address + PARTIAL)
    requires c.address + PARTIAL < |f|
    ensures f[c.address + PARTIAL] == 0xFF
  {
    var u := SetPartial(v, 0xFF);
    assert InPlace(f, c.address, u);
    assert u[PARTIAL] == 0xFF;
  }

  lemma {:induction false} HaltsWhenRefused(env: Env, f: seq<u8>, v: Version, cs: seq<Command>, ph: Phase, c: Command)
    requires c in cs && !Pass(env, f, v, cs, ph).halted
    ensures !Refused(env, c)
    decreases |cs|
  {
    hide Refused, Perform, CommandOps, NextVersion;
    if c != cs[0] {
      var o := RunCommand(env, f, v, cs[0], ph);
      HaltsWhenRefused(env, Apply(f, o.ops), NextVersion(v, cs[0]), cs[1..], NextPhase(env, cs[0], ph), c);
    }
  }

  /** The data parts of a completed middle phase are in place, and a crash in the finishes
      after it cannot disturb them. */
  lemma CrashInFinishes(env: Env, f0: seq<u8>, f: seq<u8>, v: Version, w: Version, ph: Phase, next: Phase,
                        cs: seq<Command>, a: nat, b: nat, g: seq<u8>)
    requires Phases(cs, a, b) && Apart(env, cs) && ph.Flashing?
    requires Unstarted(env, f0, cs, f) && !Pass(env, f, v, cs[a..b], ph).halted
    requires var f' := Apply(f, Pass(env, f, v, cs[a..b], ph).ops);
             CrashState(f', Pass(env, f', w, cs[b..], next).ops, g)
    ensures Complete(env, f0, cs, g)
  {
    hide CrashState, Pass, Reaches, Installed, Protected, InPlace;
    var part := cs[a..b];
    var f' := Apply(f, Pass(env, f, v, part, ph).ops);
    CrashWithoutParts(env, f', w, cs[b..], next, cs, g);
    forall j | 0 <= j < |f0| && !InManifest(env, cs, j)
      ensures f'[j] == if Protected(env, j) then f0[j] else Installed(env, cs, j, f0[j])
    {
      PassInstalls(env, f, v, part, ph, j, f[j]);
      assert cs == cs[..a] + part + cs[b..];
      InstalledSkips(env, cs[..a], part, cs[b..], j, f0[j]);
    }
    PassNeedsLocks(env, f, v, part, ph);
    if env.locked {
      forall c | c in cs && IsDataPart(env, c) ensures InPlace(f0, c.address, PartData(env, c)) {
        PartIsInMiddle(cs, a, b, c);
        assert LockAgrees(env, f, v, c);
        WasInPlace(env, f0, f, cs, c);
      }
    }
  }

  lemma PartIsInMiddle(cs: seq<Command>, a: nat, b: nat, c: Command)
    requires Phases(cs, a, b) && c in cs && IsPart(c)
    ensures c in cs[a..b]
  {
    assert cs == cs[..a] + cs[a..b] + cs[b..];
  }

  /** A data part lies outside the manifests, where the flash has not changed before it. */
  lemma WasInPlace(env: Env, f0: seq<u8>, f: seq<u8>, cs: seq<Command>, c: Command)
    requires Apart(env, cs) && Unstarted(env, f0, cs, f) && c in cs && IsDataPart(env, c)
    requires InPlace(f, c.address, PartData(env, c))
    ensures InPlace(f0, c.address, PartData(env, c))
  {
    hide PartData, Reaches;
    var data := PartData(env, c);
    forall i | 0 <= i < |data| && c.address + i < FACTORY_END && c.address + i < |f0|
      ensures f0[c.address + i] == data[i]
    {
      PartReaches(env, c, i);
      assert f[c.address + i] == data[i];
    }
  }

  /** Main result: wherever power fails or the updater halts, either the data areas are as they
      were, or all of them are in place, or every manifest started is marked as partial. */
  lemma CrashIsSafe(env: Env, f: seq<u8>, v: Version, cs: seq<Command>, ph: Phase, a: nat, b: nat, g: seq<u8>)
    requires ph.Flashing? && Phases(cs, a, b) && Apart(env, cs)
    requires CrashState(f, Pass(env, f, v, cs, ph).ops, g)
    ensures Unstarted(env, f, cs, g) || Complete(env, f, cs, g) || MarkedPartial(cs, g)
  {
    hide CrashState, Pass, Reaches, Installed, Unstarted, Complete, MarkedPartial, Apart, PhaseAfter;
    var x, y, z := cs[..a], cs[a..b], cs[b..];
    assert cs == x + (y + z);
    PassConcat(env, f, v, x, y + z, ph);
    StillFlashing(env, x, ph);
    var o1 := Pass(env, f, v, x, ph);
    var f1, v1, ph1 := Apply(f, o1.ops), FinalVersion(v, x), PhaseAfter(env, x, ph);
    PassConcat(env, f1, v1, y, z, ph1);
    var o2 := Pass(env, f1, v1, y, ph1);
    var f2, v2, ph2 := Apply(f1, o2.ops), FinalVersion(v1, y), PhaseAfter(env, y, ph1);
    var o3 := Pass(env, f2, v2, z, ph2);
    if o1.halted {
      CrashWithoutParts(env, f, v, x, ph, cs, g);
      return;
    }
    AfterStarts(env, f, v, cs, x, ph) by { StartsAreInPrefix(cs, a, b); }
    CrashWithoutParts(env, f, v, x, ph, cs, f1) by { DoneIsCrashState(f, o1.ops); }
    var rest := if o2.halted then o2.ops else o2.ops + o3.ops;
    CrashSplit(f, o1.ops, rest, g);
    if CrashState(f, o1.ops, g) {
      CrashWithoutParts(env, f, v, x, ph, cs, g);
    } else {
      if !o2.halted {
        CrashSplit(f1, o2.ops, o3.ops, g);
      }
      if CrashState(f1, o2.ops, g) {
        CrashAmongParts(env, f1, v1, cs, y, ph1, g);
      } else {
        CrashInFinishes(env, f, f1, v1, v2, ph1, ph2, cs, a, b, g);
      }
    }
  }

  lemma StartsAreInPrefix(cs: seq<Command>, a: nat, b: nat)
    requires Phases(cs, a, b)
    ensures forall c :: c in cs && c.StartManifest? ==> c in cs[..a]
  {
    assert cs == cs[..a] + cs[a..b] + cs[b..];
  }

  lemma DoneIsCrashState(f: seq<u8>, ops: seq<FlashOp>)
    ensures CrashState(f, ops, Apply(f, ops))
  {
    assert ops[..|ops|] == ops;
    assert CrashAt(f, ops, |ops|, Apply(f, ops));
  }

  /** So a manifest that the update was to replace and that claims a finished install tells the
      truth: the old firmware is untouched or the new one is whole. */
  lemma FinishedManifestIsTrue(env: Env, f: seq<u8>, v: Version, cs: seq<Command>, ph: Phase, a: nat, b: nat,
                               g: seq<u8>, m: Command)
    requires ph.Flashing? && Phases(cs, a, b) && Apart(env, cs)
    requires CrashState(f, Pass(env, f, v, cs, ph).ops, g)
    requires m in cs && m.StartManifest? && m.address + PARTIAL < |f|
    requires ReadFlash(g, m.address, VERSION_SIZE)[PARTIAL] == 0
    ensures Unstarted(env, f, cs, g) || Complete(env, f, cs, g)
  {
    hide CrashState, Pass, Reaches, Installed;
    CrashIsSafe(env, f, v, cs, ph, a, b, g);
    CrashLength(f, Pass(env, f, v, cs, ph).ops, g);
  }

  /** A chip that stops answering after any number of operations is one of the crash states. */
  lemma FailureIsCrashState(f: seq<u8>, o: Outcome, life: nat)
    ensures CrashState(f, o.ops, Updater.Do(Updater.Flash(f, [], life), o).bytes)
  {
    hide Apply;
    var n := if life < |o.ops| then life else |o.ops|;
    assert o.ops[..|o.ops|] == o.ops;
    assert CrashAt(f, o.ops, n, Apply(f, o.ops[..n]));
  }

  /** The whole session: checks, verify pass and flash pass. */
  lemma SessionIsSafe(env: Env, f: seq<u8>, header: Version, p: Parsed, a: nat, b: nat, g: seq<u8>)
    requires Phases(p.commands, a, b) && Apart(env, p.commands)
    requires CrashState(f, Session(env, f, header, p).ops, g)
    ensures var e := Opened(env, p.commands);
            Unstarted(e, f, p.commands, g) || Complete(e, f, p.commands, g) || MarkedPartial(p.commands, g)
  {
    hide Pass, Phases, Apart, CrashState, Unstarted, Complete, Opened;
    var e := Opened(env, p.commands);
    OpenedLayout(env, p.commands, f, p.commands);
    if Session(env, f, header, p).ops == [] {
      NothingCrashes(f, g);
      NothingStarted(e, f, p.commands);
    } else {
      CrashIsSafe(e, f, FinalVersion(header, p.commands), p.commands, Flashing(true), a, b, g);
    }
  }

  lemma NothingCrashes(f: seq<u8>, g: seq<u8>)
    requires CrashState(f, [], g)
    ensures g == f
  {
    ApplyNone(f);
  }

  lemma NothingStarted(env: Env, f: seq<u8>, cs: seq<Command>)
    ensures Unstarted(env, f, cs, f)
  {
  }
}
