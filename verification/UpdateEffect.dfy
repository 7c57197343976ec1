// What an update leaves in the flash.

module UpdateEffect {
  import opened Words
  import opened NorFlash
  import opened UpdateManifest
  import opened WriteLock
  import opened UpdaterSpec

  predicate IsBookkeeping(c: Command) {
    c.StartManifest? || c.FinishManifest?
  }

  predicate IsDataPart(env: Env, c: Command) {
    c.FlashPart? && Applies(env, c.board)
  }

  /** The sectors that a command addresses. */
  predicate Reaches(env: Env, c: Command, j: nat) {
    || (IsBookkeeping(c) && j / SECTOR == c.address / SECTOR)
    || (IsDataPart(env, c) && Covered(c.address, c.length, j))
  }

  /** The chip turns away any change of the byte at `j`. */
  predicate Protected(env: Env, j: nat) {
    env.locked && j < FACTORY_END
  }

  /** The byte at `j` if every data part for this board were flashed directly, in order. */
  function Installed(env: Env, cs: seq<Command>, j: nat, v: u8): u8
    decreases |cs|
  {
    if cs == [] then v
    else
      Installed(env, cs[1..], j,
        if IsDataPart(env, cs[0]) then Flashed(cs[0].address, PartData(env, cs[0]), j, v) else v)
  }

  lemma {:induction false} SameInstalled(e: Env, env: Env, cs: seq<Command>, j: nat, v: u8)
    requires forall c :: IsDataPart(e, c) == IsDataPart(env, c)
    requires forall c :: IsPart(c) ==> PartData(e, c) == PartData(env, c)
    ensures Installed(e, cs, j, v) == Installed(env, cs, j, v)
    decreases |cs|
  {
    if cs != [] {
      var c := cs[0];
      assert IsDataPart(e, c) == IsDataPart(env, c);
      var w := if IsDataPart(env, c) then Flashed(c.address, PartData(env, c), j, v) else v;
      hide IsDataPart, PartData, Flashed;
      SameInstalled(e, env, cs[1..], j, w);
    }
  }

  /** No data part for this board reaches into a manifest's sector. */
  ghost predicate Apart(env: Env, cs: seq<Command>) {
    forall c, m, j: nat :: c in cs && m in cs && IsDataPart(env, c) && IsBookkeeping(m) ==>
      !(Reaches(env, c, j) && Reaches(env, m, j))
  }

  lemma CommandStaysInReach(env: Env, v: Version, c: Command, op: FlashOp, j: nat)
    requires !Refused(env, c) && op in CommandOps(env, v, c) && Touches(op, j)
    ensures Reaches(env, c, j) && !Protected(env, j)
  {
    var asked := AskedOps(env, v, c);
    var i :| 0 <= i < |asked| && Shield(env.locked, asked[i]) == op;
    ShieldTouches(env.locked, asked[i], j);
    AskedStaysInReach(env, v, c, asked[i], j);
  }

  lemma AskedStaysInReach(env: Env, v: Version, c: Command, op: FlashOp, j: nat)
    requires !Refused(env, c) && op in AskedOps(env, v, c) && Touches(op, j)
    ensures Reaches(env, c, j)
  {
    hide ChecksumOk, PartData, PartOps, StartOps, FinishOps, Covered, Touches;
    if IsDataPart(env, c) {
      PartOpsStayCovered(c.address, PartData(env, c), op, j);
    } else if IsBookkeeping(c) {
      BlockStaysInSector(v, c.address, op, j);
    } else {
      SendingTouchesNothing(env, v, c, op, j);
    }
  }

  lemma BlockStaysInSector(v: Version, addr: nat, op: FlashOp, j: nat)
    requires addr % SECTOR == 0 && (op in StartOps(v, addr) || op in FinishOps(v, addr)) && Touches(op, j)
    ensures j / SECTOR == addr / SECTOR
  {
    assert op.addr == addr;
    hide SetPartial;
  }

  lemma SendingTouchesNothing(env: Env, v: Version, c: Command, op: FlashOp, j: nat)
    requires !IsDataPart(env, c) && !IsBookkeeping(c) && op in AskedOps(env, v, c)
    ensures !Touches(op, j)
  {
    hide PartData, PartOps, StartOps, FinishOps;
  }

  /** However a pass ends, it only touches what its commands reach and the chip lets through. */
  lemma {:induction false} PassStaysInReach(env: Env, f: seq<u8>, v: Version, cs: seq<Command>, ph: Phase,
                                            op: FlashOp, j: nat)
    requires op in Pass(env, f, v, cs, ph).ops && Touches(op, j)
    ensures !Protected(env, j) && exists c :: c in cs && Reaches(env, c, j)
    decreases |cs|
  {
    hide Refused, Touches, Reaches, CommandOps;
    var o := RunCommand(env, f, v, cs[0], ph);
    if op in o.ops {
      PerformIsPrefix(f, CommandOps(env, v, cs[0]));
      CommandStaysInReach(env, v, cs[0], op, j);
      assert cs[0] in cs;
    } else {
      PassStaysInReach(env, Apply(f, o.ops), NextVersion(v, cs[0]), cs[1..], NextPhase(env, cs[0], ph), op, j);
      var c :| c in cs[1..] && Reaches(env, c, j);
      assert c in cs;
    }
  }

  lemma CommandEffect(env: Env, f: seq<u8>, v: Version, c: Command, ph: Phase, j: nat, x: u8)
    requires ph.Flashing? && !RunCommand(env, f, v, c, ph).halted
    requires IsBookkeeping(c) ==> !Reaches(env, c, j)
    ensures AfterAll(RunCommand(env, f, v, c, ph).ops, j, x) ==
            if IsDataPart(env, c) && !Protected(env, j) then Flashed(c.address, PartData(env, c), j, x) else x
  {
    hide ChecksumOk, PartData, Flashed, Perform, StartOps, FinishOps, PartOps, ShieldAll;
    var asked := AskedOps(env, v, c);
    PerformIsPrefix(f, CommandOps(env, v, c));
    ShieldAfter(env.locked, asked, j, x);
    if IsDataPart(env, c) {
      PartOpsAfter(c.address, PartData(env, c), j, x);
    } else {
      forall op | op in asked ensures !Touches(op, j) {
        if Touches(op, j) {
          AskedStaysInReach(env, v, c, op, j);
        }
      }
      UntouchedStays(asked, j, x);
    }
  }

  /** A flash pass that completes leaves every byte outside the manifests' sectors as if the
      parts for this board had been applied directly, one after the other; protected bytes stay. */
  lemma {:induction false} PassInstalls(env: Env, f: seq<u8>, v: Version, cs: seq<Command>, ph: Phase, j: nat, x: u8)
    requires ph.Flashing? && !Pass(env, f, v, cs, ph).halted
    requires forall c :: c in cs && IsBookkeeping(c) ==> !Reaches(env, c, j)
    ensures AfterAll(Pass(env, f, v, cs, ph).ops, j, x) == if Protected(env, j) then x else Installed(env, cs, j, x)
    decreases |cs|
  {
    hide Reaches, RunCommand, Flashed, PartData, NextVersion, Protected;
    if cs != [] {
      var o := RunCommand(env, f, v, cs[0], ph);
      assert cs[0] in cs;
      CommandEffect(env, f, v, cs[0], ph, j, x);
      var g, w, next := Apply(f, o.ops), NextVersion(v, cs[0]), NextPhase(env, cs[0], ph);
      AfterConcat(o.ops, Pass(env, g, w, cs[1..], next).ops, j, x);
      assert forall c :: c in cs[1..] ==> c in cs;
      PassInstalls(env, g, w, cs[1..], next, j, AfterAll(o.ops, j, x));
    }
  }

  /** Bytes that no command reaches, and protected ones, never change, not even in a pass that halts. */
  lemma PassLeavesOthers(env: Env, f: seq<u8>, v: Version, cs: seq<Command>, ph: Phase, j: nat, x: u8)
    requires Protected(env, j) || forall c :: c in cs ==> !Reaches(env, c, j)
    ensures AfterAll(Pass(env, f, v, cs, ph).ops, j, x) == x
  {
    hide Reaches, Touches, Pass, Protected;
    var ops := Pass(env, f, v, cs, ph).ops;
    forall op | op in ops ensures !Touches(op, j) {
      if Touches(op, j) {
        PassStaysInReach(env, f, v, cs, ph, op, j);
      }
    }
    UntouchedStays(ops, j, x);
  }
}
