// The updater as it runs: a manifest buffer edited in place, a command pointer and
// the erase and program loops, against a flash chip that may stop answering at any
// operation.  software/userland/src/updater/main.c

module Updater {
  import opened Words
  import opened NorFlash
  import opened UpdateManifest
  import opened WriteLock
  import opened UpdaterSpec

  /** The chips as the updater sees them: the bytes of the SPI flash, the operations performed so
      far, writes to the microcontroller among them, and how many more will succeed. */
  datatype Flash = Flash(bytes: seq<u8>, log: seq<FlashOp>, life: nat)

  function Advance(s: Flash, o: Outcome): Flash
    requires |o.ops| <= s.life
  {
    Flash(Apply(s.bytes, o.ops), s.log + o.ops, s.life - |o.ops|)
  }

  /** The first operation that fails, on either chip, halts the updater. */
  function Limit(o: Outcome, life: nat): (r: Outcome)
    ensures |r.ops| <= life && r.ops <= o.ops
  {
    if |o.ops| <= life then o else Outcome(o.ops[..life], true)
  }

  function Then(o: Outcome, p: Outcome): Outcome {
    if o.halted then o else Outcome(o.ops + p.ops, p.halted)
  }

  lemma AdvanceThen(s: Flash, o: Outcome, p: Outcome)
    ensures var s' := Advance(s, Limit(o, s.life));
            if Limit(o, s.life).halted then Limit(Then(o, p), s.life) == Limit(o, s.life)
            else
              && Advance(s', Limit(p, s'.life)) == Advance(s, Limit(Then(o, p), s.life))
              && Limit(p, s'.life).halted == Limit(Then(o, p), s.life).halted
  {
    hide AfterAll;
    if !Limit(o, s.life).halted {
      var q := Limit(p, s.life - |o.ops|);
      assert Limit(Then(o, p), s.life).ops == o.ops + q.ops;
      ApplyConcat(s.bytes, o.ops, q.ops);
      assert s.log + o.ops + q.ops == s.log + (o.ops + q.ops);
    } else if !o.halted {
      assert (o.ops + p.ops)[..s.life] == o.ops[..s.life];
    }
  }

  /** The chip after an outcome, cut short where it fails. */
  function Do(s: Flash, o: Outcome): Flash {
    Advance(s, Limit(o, s.life))
  }

  predicate Halts(s: Flash, o: Outcome) {
    Limit(o, s.life).halted
  }

  lemma DoThen(s: Flash, o: Outcome, p: Outcome)
    ensures Halts(s, o) ==> Do(s, Then(o, p)) == Do(s, o) && Halts(s, Then(o, p))
    ensures !Halts(s, o) ==>
              && Do(Do(s, o), p) == Do(s, Then(o, p))
              && Halts(Do(s, o), p) == Halts(s, Then(o, p))
  {
    hide Apply;
    AdvanceThen(s, o, p);
  }

  lemma DoBytes(s: Flash, o: Outcome)
    requires !Halts(s, o)
    ensures Do(s, o).bytes == Apply(s.bytes, o.ops)
  {
  }

  lemma PerformOne(f: seq<u8>, op: FlashOp)
    ensures Perform(f, [op]).ops == [op]
  {
    assert [op][1..] == [] && [op] + [] == [op];
  }

  lemma DoNothing(s: Flash)
    ensures Do(s, Outcome([], false)) == s && !Halts(s, Outcome([], false))
  {
    ApplyNone(s.bytes);
  }

  /** The address arithmetic of the erase loop stays within 32 bits. */
  predicate InRange(cs: seq<Command>) {
    forall c :: c in cs && c.FlashPart? ==> c.address + c.length <= 0xFFFF_F000
  }

  /** The manifest in the image stays inside its buffer when walked. */
  ghost predicate Walkable(env: Env) {
    var length := Get16(env.memory, ManifestBase(env));
    length <= MANIFEST_SIZE ==>
      var p := Parse(ManifestBuffer(env, length)[VERSION_SIZE..]);
      !p.end.Overrun? && InRange(p.commands)
  }

  function PhaseOf(verify: bool, mcuLeft: bool): Phase {
    if verify then Verifying else Flashing(!mcuLeft)
  }

  class Machine {
    var env: Env                   // its flag `locked` is the chip's write protection
    const flash: array<u8>
    const manifest: array<u8>
    var life: nat
    var verify: bool
    var mcuRestarted: bool
    var mcuLeft: bool              // the microcontroller is out of its boot loader again
    var versionAddress: nat
    ghost var log: seq<FlashOp>

    ghost predicate Valid()
      reads this, manifest
    {
      manifest.Length == MANIFEST_SIZE && manifest != flash && (mcuRestarted ==> env.mcuRestarts)
    }

    constructor (env: Env, flash: array<u8>, life: nat)
      ensures Valid() && this.env == env && this.flash == flash && fresh(manifest)
      ensures versionAddress == 0 && !mcuLeft && this.life == life && log == []
    {
      this.env, this.flash, this.life := env, flash, life;
      manifest := new u8[MANIFEST_SIZE](_ => 0);
      verify, mcuRestarted, mcuLeft, versionAddress, log := true, false, false, 0, [];
    }

    ghost function State(): Flash
      reads this, flash
    {
      Flash(flash[..], log, life)
    }

    function Header(): Version
      requires Valid()
      reads this, manifest
    {
      manifest[..VERSION_SIZE]
    }

    /** Which pass this is, and whether the boot loader still answers. */
    function Ph(): Phase
      reads this
    {
      PhaseOf(verify, mcuLeft)
    }

    // ----- the chip -----

    /** One operation as the chip takes it: a locked one ignores what is protected. */
    method Exchange(op: FlashOp) returns (ok: bool)
      modifies this`life, this`log, flash
      ensures State() == Do(old(State()), Outcome([Shield(env.locked, op)], false))
      ensures ok == !Halts(old(State()), Outcome([Shield(env.locked, op)], false))
    {
      var done := Shield(env.locked, op);
      if life == 0 {
        assert [done][..0] == [];
        DoNothing(State());
        return false;
      }
      ghost var before := flash[..];
      forall j | 0 <= j < flash.Length && Touches(done, j) {
        flash[j] := After(done, j, flash[j]);
      }
      forall j | 0 <= j < flash.Length ensures flash[j] == Apply(before, [done])[j] {
        AfterOne(done, j, before[j]);
      }
      assert flash[..] == Apply(before, [done]);
      life := life - 1;
      log := log + [done];
      ok := true;
    }

    /** nile_flash_read into a buffer, and the comparison of that buffer. */
    method Compare(addr: nat, want: seq<u8>) returns (ok: bool)
      modifies this`life, this`log, flash
      ensures State() == Do(old(State()), Perform(old(flash[..]), [ReadBack(addr, want)]))
      ensures ok == !Halts(old(State()), Perform(old(flash[..]), [ReadBack(addr, want)]))
    {
      ghost var before := flash[..];
      var op := ReadBack(addr, want);
      assert [op][1..] == [] && [op] + [] == [op];
      ok := Exchange(op);
      if ok {
        var got := ReadFlash(flash[..], addr, |want|);
        assert flash[..] == before by {
          forall j | 0 <= j < |before| ensures flash[j] == before[j] {
            AfterOne(op, j, before[j]);
          }
        }
        ok := got == want;
      }
    }

    /** The erase loop. */
    method EraseRange(lo: nat, hi: nat) returns (ok: bool)
      requires lo % SECTOR == 0
      modifies this`life, this`log, flash
      ensures State() == Do(old(State()), Outcome(ShieldAll(env.locked, EraseOps(lo, hi)), false))
      ensures ok == !Halts(old(State()), Outcome(ShieldAll(env.locked, EraseOps(lo, hi)), false))
    {
      hide Apply, Do, Halts, ShieldAll, Shield, EraseOps;
      var a := lo;
      ghost var s := State();
      ghost var whole := ShieldAll(env.locked, EraseOps(lo, hi));
      ghost var done: seq<FlashOp> := [];
      DoNothing(s);
      while a < hi
        invariant a % SECTOR == 0
        invariant done + ShieldAll(env.locked, EraseOps(a, hi)) == whole
        invariant State() == Do(s, Outcome(done, false)) && !Halts(s, Outcome(done, false))
      {
        EraseStep(s, env.locked, done, a, hi);
        ok := Exchange(Erase(a));
        if !ok {
          return;
        }
        done := done + [Shield(env.locked, Erase(a))];
        a := a + SECTOR;
      }
      NothingToErase(env.locked, a, hi);
      assert done + [] == done;
      ok := true;
    }

    /** The program loop: a page at a time, each read back and compared. */
    method ProgramRange(start: nat, data: seq<u8>) returns (ok: bool)
      modifies this`life, this`log, flash
      ensures State() == Do(old(State()), Perform(old(flash[..]), ShieldAll(env.locked, ProgramOps(start, data))))
      ensures ok == !Halts(old(State()), Perform(old(flash[..]), ShieldAll(env.locked, ProgramOps(start, data))))
    {
      hide Apply, Do, Halts, Perform, Then, ShieldAll, Shield;
      var i := 0;
      ghost var s := State();
      ghost var done := Outcome([], false);
      ghost var goal := Perform(s.bytes, ShieldAll(env.locked, ProgramOps(start, data)));
      DoNothing(s);
      assert data[0..] == data;
      ThenNothing(goal);
      while i < |data|
        invariant i <= |data|
        invariant State() == Do(s, done) && !Halts(s, done)
        invariant Then(done, Perform(flash[..], ShieldAll(env.locked, ProgramOps(start + i, data[i..])))) == goal
      {
        var len := |data| - i;
        if len > PAGE {
          len := PAGE;
        }
        var page := data[i..i + len];
        ghost var f := flash[..];
        ghost var rest := ProgramOps(start + i + len, data[i..][len..]);
        assert data[i..][len..] == data[i + len..] && page == data[i..][..len];
        ghost var program, read := Shield(env.locked, Program(start + i, page)), ReadBack(start + i, page);
        ShieldPage(env.locked, Program(start + i, page), read, rest);
        ghost var left := ShieldAll(env.locked, rest);
        ghost var g := Apply(f, [program]);
        ghost var tail := Perform(Apply(g, [read]), left);
        PageStep(f, program, read, left);
        ThenThen(done, Outcome([program], false), Then(Perform(g, [read]), tail));
        DoThen(s, done, Outcome([program], false));
        DoThen(s, Then(done, Outcome([program], false)), Then(Perform(g, [read]), tail));
        ghost var now := State();
        ok := Exchange(Program(start + i, page));
        if !ok {
          return;
        }
        DoBytes(now, Outcome([program], false));
        now := State();
        done := Then(done, Outcome([program], false));
        ThenThen(done, Perform(g, [read]), tail);
        DoThen(s, done, Perform(g, [read]));
        DoThen(s, Then(done, Perform(g, [read])), tail);
        ok := Compare(start + i, page);
        if !ok {
          return;
        }
        DoBytes(now, Perform(g, [read]));
        PerformOne(g, read);
        done := Then(done, Perform(g, [read]));
        i := i + len;
      }
      assert data[i..] == [];
      ShieldNothing(env.locked);
      NothingLeft(s, flash[..], done);
      ok := true;
    }

    // ----- the commands -----

    method RunFlash(c: Command) returns (ok: bool)
      requires Valid() && c.FlashPart? && InRange([c])
      modifies this`life, this`log, flash
      ensures State() == Do(old(State()), RunCommand(env, old(flash[..]), Header(), c, old(Ph())))
      ensures ok == !Halts(old(State()), RunCommand(env, old(flash[..]), Header(), c, old(Ph())))
    {
      hide Perform, Extract, ShieldAll, Apply, Do, Halts, PartOps, EraseOps, ProgramOps, Shield, Parse, EncodeAll;
      ghost var s := State();
      DoNothing(s);
      HaltNothing(s);
      ShieldNothing(env.locked);
      if c.board < 0x100 && env.board != c.board {
        PerformNothing(s.bytes);
        return true;
      }
      var data := Extract(env, c.packed, c.segment, c.length);
      if env.crc(data) != c.crc {
        return false;
      }
      if c.address % 0x100 != 0 {
        return false;
      }
      if !verify {
        assert c in [c];
        PerformPart(s, env.locked, c.address, data);
        ok := EraseRange(c.address / SECTOR * SECTOR, c.address + c.length);
        if ok {
          ok := ProgramRange(c.address, data);
        }
        return;
      }
      ok := true;
    }

    method RunMcu(c: Command) returns (ok: bool)
      requires Valid() && c.McuPart?
      modifies this`life, this`log, this`mcuRestarted, this`mcuLeft, flash
      ensures Valid()
      ensures ok ==> Ph() == NextPhase(env, c, old(Ph()))
      ensures verify ==> mcuLeft == old(mcuLeft)
      ensures State() == Do(old(State()), RunCommand(env, old(flash[..]), Header(), c, old(Ph())))
      ensures ok == !Halts(old(State()), RunCommand(env, old(flash[..]), Header(), c, old(Ph())))
    {
      hide Perform, Extract, ShieldAll;
      DoNothing(State());
      HaltNothing(State());
      PerformNothing(flash[..]);
      ShieldNothing(env.locked);
      if c.board < 0x100 && env.board != c.board {
        return true;
      }
      var data := Extract(env, false, c.segment, c.length);
      if env.crc(data) != c.crc {
        return false;
      }
      if c.address % MCU_PAGE != 0 {
        return false;
      }
      if !mcuRestarted {
        if !env.mcuRestarts {
          return false;
        }
        mcuRestarted := true;
      }
      if !verify {
        if mcuLeft {
          return false;
        }
        ShieldMcu(env.locked, flash[..], McuWrite(c.address, data));
        ok := Exchange(McuWrite(c.address, data));
        if ok {
          mcuLeft := true;
        }
        return;
      }
      ok := true;
    }

    method RunStart(c: Command) returns (ok: bool)
      requires Valid() && c.StartManifest?
      modifies this`life, this`log, this`versionAddress, flash, manifest
      ensures State() == Do(old(State()), RunCommand(env, old(flash[..]), old(Header()), c, old(Ph())))
      ensures ok == !Halts(old(State()), RunCommand(env, old(flash[..]), old(Header()), c, old(Ph())))
      ensures Valid() && Header() == NextVersion(old(Header()), c)
      ensures manifest[VERSION_SIZE..] == old(manifest[VERSION_SIZE..])
      ensures ok ==> versionAddress == c.address
    {
      hide Perform, ShieldAll;
      ghost var s := State();
      DoNothing(s);
      manifest[PARTIAL] := 0xFF;
      var v := Header();
      assert v == SetPartial(old(Header()), 0xFF);
      if c.address % 0x1000 != 0 {
        return false;
      }
      versionAddress := c.address;
      if !verify {
        PerformStart(s, env.locked, old(Header()), c.address);
        ok := Exchange(Erase(c.address));
        if ok {
          ok := Exchange(Program(c.address, v));
        }
        if ok {
          ok := Compare(c.address, v);
        }
        return;
      }
      ok := true;
    }

    method RunFinish(c: Command) returns (ok: bool)
      requires Valid() && c.FinishManifest?
      modifies this`life, this`log, flash, manifest
      ensures State() == Do(old(State()), RunCommand(env, old(flash[..]), old(Header()), c, old(Ph())))
      ensures ok == !Halts(old(State()), RunCommand(env, old(flash[..]), old(Header()), c, old(Ph())))
      ensures Valid() && Header() == NextVersion(old(Header()), c)
      ensures manifest[VERSION_SIZE..] == old(manifest[VERSION_SIZE..])
    {
      hide Perform, ShieldAll;
      ghost var s := State();
      DoNothing(s);
      manifest[PARTIAL] := 0;
      var v := Header();
      assert v == SetPartial(old(Header()), 0);
      if c.address % 0x1000 != 0 {
        return false;
      }
      if !verify {
        PerformFinish(s, env.locked, old(Header()), c.address);
        ok := Exchange(Program(c.address, v[..12]));
        if ok {
          ok := Compare(c.address, v);
        }
        return;
      }
      ok := true;
    }

    method RunCheck(c: Command) returns (ok: bool)
      requires Valid() && c.CheckBoardRange?
      ensures State() == Do(old(State()), RunCommand(env, old(flash[..]), Header(), c, old(Ph())))
      ensures ok == !Halts(old(State()), RunCommand(env, old(flash[..]), Header(), c, old(Ph())))
    {
      hide Perform;
      DoNothing(State());
      PerformNothing(flash[..]);
      ShieldNothing(env.locked);
      ok := !(env.board < c.min || env.board > c.max);
    }

    method Run(c: Command) returns (ok: bool)
      requires Valid() && InRange([c])
      modifies this`life, this`log, this`mcuRestarted, this`mcuLeft, this`versionAddress, flash, manifest
      ensures State() == Do(old(State()), RunCommand(env, old(flash[..]), old(Header()), c, old(Ph())))
      ensures ok == !Halts(old(State()), RunCommand(env, old(flash[..]), old(Header()), c, old(Ph())))
      ensures Valid() && Header() == NextVersion(old(Header()), c)
      ensures manifest[VERSION_SIZE..] == old(manifest[VERSION_SIZE..])
      ensures ok ==> versionAddress == VersionAddress(old(versionAddress), [c])
      ensures ok ==> Ph() == NextPhase(env, c, old(Ph()))
      ensures verify ==> mcuLeft == old(mcuLeft)
    {
      hide RunCommand, Do, Halts;
      assert [c][1..] == [];
      match c
      case FlashPart(_, _, _, _, _, _) => ok := RunFlash(c);
      case McuPart(_, _, _, _, _, _) => ok := RunMcu(c);
      case StartManifest(_) => ok := RunStart(c);
      case FinishManifest(_) => ok := RunFinish(c);
      case CheckBoardRange(_, _) => ok := RunCheck(c);
    }

    // ----- the interpreter -----

    /** The command list behind the version block. */
    ghost function List(): Parsed
      requires Valid()
      reads this, manifest
    {
      Parse(manifest[VERSION_SIZE..])
    }

    method RunUpdateManifest(verifyOnly: bool) returns (ok: bool)
      requires Valid() && !List().end.Overrun? && InRange(List().commands)
      modifies this`life, this`log, this`mcuRestarted, this`mcuLeft, this`versionAddress, this`verify, flash, manifest
      ensures State() == Do(old(State()), RunManifest(env, old(flash[..]), old(Header()), old(List()), PhaseOf(verifyOnly, old(mcuLeft))))
      ensures ok == !Halts(old(State()), RunManifest(env, old(flash[..]), old(Header()), old(List()), PhaseOf(verifyOnly, old(mcuLeft))))
      ensures Valid() && List() == old(List())
      ensures ok ==> Header() == FinalVersion(old(Header()), old(List()).commands)
      ensures ok ==> versionAddress == VersionAddress(old(versionAddress), old(List()).commands)
      ensures verifyOnly ==> mcuLeft == old(mcuLeft)
    {
      hide RunCommand, Do, Halts, Apply, Then, InRange, NextVersion, NextPhase;
      ghost var s, v, p, addr := State(), Header(), List(), versionAddress;
      ghost var goal := RunManifest(env, s.bytes, v, p, PhaseOf(verifyOnly, mcuLeft));
      ghost var done, left := Outcome([], false), p;
      verify := verifyOnly;
      var ptr := VERSION_SIZE;
      DoNothing(s);
      ThenNothing(goal);
      while manifest[ptr] != 0
        invariant Valid() && VERSION_SIZE <= ptr < MANIFEST_SIZE && verify == verifyOnly
        invariant manifest[VERSION_SIZE..] == old(manifest[VERSION_SIZE..])
        invariant left == Parse(manifest[ptr..]) && !left.end.Overrun? && InRange(left.commands)
        invariant State() == Do(s, done) && !Halts(s, done)
        invariant Then(done, RunManifest(env, flash[..], Header(), left, Ph())) == goal
        invariant verifyOnly ==> mcuLeft == old(mcuLeft)
        invariant FinalVersion(Header(), left.commands) == FinalVersion(v, p.commands)
        invariant VersionAddress(versionAddress, left.commands) == VersionAddress(addr, p.commands)
        decreases MANIFEST_SIZE - ptr
      {
        var op := manifest[ptr];
        assert op == manifest[ptr..][0];
        if OpSize(op) == 0 {
          CorruptEnd(s, env, flash[..], Header(), left, Ph(), done);
          return false;
        }
        ParseStep(manifest[ptr..]);
        var c := Decode(manifest[ptr..]);
        ghost var h, f, ph, next := Header(), flash[..], Ph(), Parse(manifest[ptr + OpSize(op)..]);
        assert manifest[ptr..][OpSize(op)..] == manifest[ptr + OpSize(op)..];
        InRangeStep(left.commands, c, next.commands);
        RunStep(env, f, h, c, left, next, ph);
        ghost var o := RunCommand(env, f, h, c, ph);
        ghost var tail := RunManifest(env, Apply(f, o.ops), NextVersion(h, c), next, NextPhase(env, c, ph));
        ThenThen(done, o, tail);
        DoThen(s, done, o);
        DoThen(s, Then(done, o), tail);
        ghost var now := State();
        label before:
        ok := Run(c);
        SameTail(old@before(manifest[..]), manifest[..], ptr + OpSize(op));
        if !ok {
          return;
        }
        DoBytes(now, o);
        done := Then(done, o);
        left := next;
        ptr := ptr + OpSize(op);
        NotPastTheEnd(manifest[ptr..]);
      }
      assert manifest[ptr] == manifest[ptr..][0];
      EndReached(s, env, flash[..], Header(), left, Ph(), done);
      ok := true;
    }

    // ----- from power-up -----

    method CopyManifest(length: nat)
      requires Valid() && length <= MANIFEST_SIZE
      modifies manifest
      ensures Valid() && manifest[..] == ManifestBuffer(env, length)
    {
      var base := ManifestBase(env);
      forall i | 0 <= i < MANIFEST_SIZE {
        manifest[i] := if i < length then env.memory[base + 4 + i] else 0;
      }
    }

    method Start() returns (ok: bool)
      requires Valid() && versionAddress == 0 && !mcuLeft && Walkable(env)
      modifies this`env, this`life, this`log, this`mcuRestarted, this`mcuLeft, this`versionAddress, this`verify, flash, manifest
      ensures State() == Do(old(State()), Boot(old(env), old(flash[..])))
      ensures ok == !Halts(old(State()), Boot(old(env), old(flash[..])))
    {
      hide RunManifest, Do, Halts, Apply, InRange, ManifestBuffer, Parse;
      ghost var s := State();
      DoNothing(s);
      HaltNothing(s);
      var base := ManifestBase(env);
      var length := Get16(env.memory, base);
      if length > MANIFEST_SIZE {
        return false;
      }
      CopyManifest(length);
      if env.crc(manifest[..length]) != Get16(env.memory, base + 2) {
        return false;
      }
      ghost var h, p := Header(), List();
      assert manifest[..] == ManifestBuffer(env, length);
      assert manifest[..][..VERSION_SIZE] == h && manifest[..][VERSION_SIZE..] == manifest[VERSION_SIZE..];
      DryRun(s, env, h, p);
      ok := RunUpdateManifest(true);
      if !ok {
        return;
      }
      var installed := ReadFlash(flash[..], versionAddress, VERSION_SIZE);
      var update := Header();
      if Get16(update, 0) != UM_ID {
        return false;
      }
      if IsDowngrade(installed, update) && versionAddress >= FACTORY_END {
        return false;
      }
      if versionAddress < FACTORY_END {
        env := env.(locked := false);
      }
      ok := RunUpdateManifest(false);
    }
  }

  lemma ThenThen(o: Outcome, p: Outcome, q: Outcome)
    ensures Then(Then(o, p), q) == Then(o, Then(p, q))
  {
    assert o.ops + p.ops + q.ops == o.ops + (p.ops + q.ops);
  }

  lemma ThenNothing(o: Outcome)
    ensures Then(Outcome([], false), o) == o
  {
  }

  lemma NothingLeft(s: Flash, f: seq<u8>, o: Outcome)
    requires !Halts(s, o)
    ensures Then(o, Perform(f, [])) == o
  {
  }

  lemma PageStep(f: seq<u8>, program: FlashOp, read: FlashOp, rest: seq<FlashOp>)
    requires !program.ReadBack? && read.ReadBack?
    ensures var g := Apply(f, [program]);
            Perform(f, [program, read] + rest) ==
              Then(Outcome([program], false), Then(Perform(g, [read]), Perform(Apply(g, [read]), rest)))
  {
    hide Apply;
    assert ([program, read] + rest)[1..] == [read] + rest;
    assert ([read] + rest)[1..] == rest;
    assert [read][1..] == [] && [read] + [] == [read];
  }

  lemma ShieldNothing(locked: bool)
    ensures ShieldAll(locked, []) == []
  {
  }

  lemma ShieldErase(locked: bool, a: nat, hi: nat)
    requires a < hi
    ensures ShieldAll(locked, EraseOps(a, hi)) ==
            [Shield(locked, Erase(a))] + ShieldAll(locked, EraseOps(a + SECTOR, hi))
  {
    assert EraseOps(a, hi)[1..] == EraseOps(a + SECTOR, hi);
    ShieldFirst(locked, EraseOps(a, hi));
  }

  lemma NothingToErase(locked: bool, a: nat, hi: nat)
    requires hi <= a
    ensures ShieldAll(locked, EraseOps(a, hi)) == []
  {
  }

  /** One round of the erase loop, as a part of all of them. */
  lemma EraseStep(s: Flash, locked: bool, done: seq<FlashOp>, a: nat, hi: nat)
    requires a < hi && !Halts(s, Outcome(done, false))
    ensures var one := [Shield(locked, Erase(a))];
            var rest := ShieldAll(locked, EraseOps(a + SECTOR, hi));
            var whole := done + ShieldAll(locked, EraseOps(a, hi));
            var now := Do(s, Outcome(done, false));
            && done + one + rest == whole
            && (if Halts(now, Outcome(one, false))
                then Do(now, Outcome(one, false)) == Do(s, Outcome(whole, false)) && Halts(s, Outcome(whole, false))
                else Do(now, Outcome(one, false)) == Do(s, Outcome(done + one, false))
                     && !Halts(s, Outcome(done + one, false)))
  {
    hide Apply, Do, Halts, ShieldAll, Shield, EraseOps;
    var one := [Shield(locked, Erase(a))];
    var rest := ShieldAll(locked, EraseOps(a + SECTOR, hi));
    ShieldErase(locked, a, hi);
    DoThen(s, Outcome(done, false), Outcome(one, false));
    DoThen(s, Outcome(done + one, false), Outcome(rest, false));
    assert done + one + rest == done + (one + rest);
  }

  lemma ShieldPage(locked: bool, program: FlashOp, read: FlashOp, rest: seq<FlashOp>)
    requires program.Program? && read.ReadBack?
    ensures !Shield(locked, program).ReadBack?
    ensures ShieldAll(locked, [program, read] + rest) == [Shield(locked, program), read] + ShieldAll(locked, rest)
  {
    ShieldConcat(locked, [program, read], rest);
  }

  lemma ShieldMcu(locked: bool, f: seq<u8>, op: FlashOp)
    requires op.McuWrite?
    ensures Perform(f, ShieldAll(locked, [op])) == Outcome([op], false)
  {
    assert ShieldAll(locked, [op]) == [op];
    PerformBlind(f, [op]);
  }

  lemma PerformNothing(f: seq<u8>)
    ensures Perform(f, []) == Outcome([], false)
  {
  }

  /** Two lists of operations in a row. */
  lemma PerformSplit(s: Flash, a: seq<FlashOp>, b: seq<FlashOp>)
    ensures var o := Perform(s.bytes, a);
            var whole := Perform(s.bytes, a + b);
            if Halts(s, o) then Do(s, o) == Do(s, whole) && Halts(s, whole)
            else
              var p := Perform(Do(s, o).bytes, b);
              Do(Do(s, o), p) == Do(s, whole) && Halts(Do(s, o), p) == Halts(s, whole)
  {
    hide Apply, Perform, Do;
    PerformConcat(s.bytes, a, b);
    PerformIsPrefix(s.bytes, a);
    var o := Perform(s.bytes, a);
    var p := Perform(Apply(s.bytes, a), b);
    DoThen(s, o, p);
    if !Halts(s, o) {
      DoBytes(s, o);
    }
  }

  lemma PerformPart(s: Flash, locked: bool, start: nat, data: seq<u8>)
    ensures var lo := start / SECTOR * SECTOR;
            var o := Outcome(ShieldAll(locked, EraseOps(lo, start + |data|)), false);
            var whole := Perform(s.bytes, ShieldAll(locked, PartOps(start, data)));
            if Halts(s, o) then Do(s, o) == Do(s, whole) && Halts(s, whole)
            else
              var p := Perform(Do(s, o).bytes, ShieldAll(locked, ProgramOps(start, data)));
              Do(Do(s, o), p) == Do(s, whole) && Halts(Do(s, o), p) == Halts(s, whole)
  {
    hide Apply, Perform, Do, Halts, ProgramOps;
    var lo := start / SECTOR * SECTOR;
    var erases := EraseOps(lo, start + |data|);
    var ops := ShieldAll(locked, erases);
    forall op | op in ops ensures !op.ReadBack? {
      var i :| 0 <= i < |ops| && ops[i] == op;
      EraseOpsRange(lo, start + |data|, erases[i]);
    }
    PerformBlind(s.bytes, ops);
    ShieldConcat(locked, erases, ProgramOps(start, data));
    PerformSplit(s, ops, ShieldAll(locked, ProgramOps(start, data)));
  }

  lemma PerformStart(s: Flash, locked: bool, v: Version, addr: nat)
    ensures var u := SetPartial(v, 0xFF);
            var o := Outcome([Shield(locked, Erase(addr))], false);
            var p := Outcome([Shield(locked, Program(addr, u))], false);
            var whole := Perform(s.bytes, ShieldAll(locked, StartOps(v, addr)));
            if Halts(s, o) then Do(s, o) == Do(s, whole) && Halts(s, whole)
            else
              var s1 := Do(s, o);
              if Halts(s1, p) then Do(s1, p) == Do(s, whole) && Halts(s, whole)
              else
                var s2 := Do(s1, p);
                var q := Perform(s2.bytes, [ReadBack(addr, u)]);
                Do(s2, q) == Do(s, whole) && Halts(s2, q) == Halts(s, whole)
  {
    hide Apply, Perform, Do, Halts, SetPartial;
    var u := SetPartial(v, 0xFF);
    var a, b, c := [Shield(locked, Erase(addr))], [Shield(locked, Program(addr, u))], [ReadBack(addr, u)];
    assert ShieldAll(locked, StartOps(v, addr)) == a + (b + c);
    PerformSplit(s, a, b + c);
    PerformBlind(s.bytes, a);
    var s1 := Do(s, Outcome(a, false));
    PerformSplit(s1, b, c);
    PerformBlind(s1.bytes, b);
  }

  lemma PerformFinish(s: Flash, locked: bool, v: Version, addr: nat)
    ensures var u := SetPartial(v, 0);
            var o := Outcome([Shield(locked, Program(addr, u[..12]))], false);
            var whole := Perform(s.bytes, ShieldAll(locked, FinishOps(v, addr)));
            if Halts(s, o) then Do(s, o) == Do(s, whole) && Halts(s, whole)
            else
              var s1 := Do(s, o);
              var q := Perform(s1.bytes, [ReadBack(addr, u)]);
              Do(s1, q) == Do(s, whole) && Halts(s1, q) == Halts(s, whole)
  {
    hide Apply, Perform, Do, Halts, SetPartial;
    var u := SetPartial(v, 0);
    var a, b := [Shield(locked, Program(addr, u[..12]))], [ReadBack(addr, u)];
    assert ShieldAll(locked, FinishOps(v, addr)) == a + b;
    PerformSplit(s, a, b);
    PerformBlind(s.bytes, a);
  }

  // ----- walking the command list -----

  lemma ParseStep(b: seq<u8>)
    requires b != [] && b[0] != 0 && OpSize(b[0]) > 0 && !Parse(b).end.Overrun?
    ensures OpSize(b[0]) <= |b|
    ensures var rest := Parse(b[OpSize(b[0])..]);
            Parse(b) == Parsed([Decode(b)] + rest.commands, rest.end)
  {
  }

  lemma NotPastTheEnd(b: seq<u8>)
    requires !Parse(b).end.Overrun?
    ensures b != []
  {
  }

  lemma InRangeStep(cs: seq<Command>, c: Command, rest: seq<Command>)
    requires cs == [c] + rest && InRange(cs)
    ensures InRange([c]) && InRange(rest)
  {
    assert forall d :: d in rest ==> d in cs;
  }

  lemma SameTail(a: seq<u8>, b: seq<u8>, i: nat)
    requires VERSION_SIZE <= i <= |a| && |a| == |b| && a[VERSION_SIZE..] == b[VERSION_SIZE..]
    ensures a[i..] == b[i..]
  {
    assert a[i..] == a[VERSION_SIZE..][i - VERSION_SIZE..];
    assert b[i..] == b[VERSION_SIZE..][i - VERSION_SIZE..];
  }

  lemma RunStep(env: Env, f: seq<u8>, v: Version, c: Command, p: Parsed, rest: Parsed, ph: Phase)
    requires p == Parsed([c] + rest.commands, rest.end)
    ensures var o := RunCommand(env, f, v, c, ph);
            RunManifest(env, f, v, p, ph)
              == Then(o, RunManifest(env, Apply(f, o.ops), NextVersion(v, c), rest, NextPhase(env, c, ph)))
    ensures FinalVersion(v, p.commands) == FinalVersion(NextVersion(v, c), rest.commands)
    ensures forall a :: VersionAddress(a, p.commands)
                        == VersionAddress(VersionAddress(a, [c]), rest.commands)
  {
    hide RunCommand, NextVersion, NextPhase, Apply;
    assert p.commands[1..] == rest.commands && [c][1..] == [];
  }

  lemma EndReached(s: Flash, env: Env, f: seq<u8>, v: Version, p: Parsed, ph: Phase, done: Outcome)
    requires p == Parsed([], Terminated) && !Halts(s, done)
    ensures Then(done, RunManifest(env, f, v, p, ph)) == done
  {
  }

  lemma CorruptEnd(s: Flash, env: Env, f: seq<u8>, v: Version, p: Parsed, ph: Phase, done: Outcome)
    requires p == Parsed([], Corrupt) && !Halts(s, done)
    ensures var o := Then(done, RunManifest(env, f, v, p, ph));
            Do(s, o) == Do(s, done) && Halts(s, o)
  {
    hide Apply;
    assert done.ops + [] == done.ops;
  }

  lemma HaltNothing(s: Flash)
    ensures Do(s, Outcome([], true)) == s && Halts(s, Outcome([], true))
  {
    ApplyNone(s.bytes);
  }

  /** The verify run leaves the chip alone and can only end one of two ways. */
  lemma DryRun(s: Flash, env: Env, v: Version, p: Parsed)
    ensures var o := RunManifest(env, s.bytes, v, p, Verifying);
            Do(s, o) == s && Halts(s, o) == o.halted
  {
    VerifyPassIsDry(env, s.bytes, v, p.commands);
    ApplyNone(s.bytes);
  }
}
