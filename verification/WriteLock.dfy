// The flash chip's write protection of its lower 256 KiB, as the boot program leaves it
// and the updater opens it.  software/ipl1/src/boot/main.c, software/userland/src/updater/main.c

module WriteLock {
  import opened Words
  import opened NorFlash

  /** The protected area ends at a sector boundary. */
  const FACTORY_END := 0x4_0000

  /** What the chip makes of an operation: a locked one ignores erases and programs below the
      end of the protected area, and reports no error. */
  function Shield(locked: bool, op: FlashOp): FlashOp {
    if locked && (op.Erase? || op.Program?) && op.addr < FACTORY_END then Ignored(op.addr) else op
  }

  function ShieldAll(locked: bool, ops: seq<FlashOp>): (r: seq<FlashOp>)
    ensures |r| == |ops| && forall i :: 0 <= i < |ops| ==> r[i] == Shield(locked, ops[i])
  {
    seq(|ops|, i requires 0 <= i < |ops| => Shield(locked, ops[i]))
  }

  /** Sectors and pages lie on one side of the border, so an operation is ignored as a whole. */
  lemma ShieldTouches(locked: bool, op: FlashOp, j: nat)
    ensures Touches(Shield(locked, op), j) <==> Touches(op, j) && !(locked && j < FACTORY_END)
  {
    assert FACTORY_END == 64 * SECTOR && FACTORY_END == 1024 * PAGE;
    if op.Erase? && j / SECTOR == op.addr / SECTOR {
      SameSide(SECTOR, 64, j, op.addr);
    } else if op.Program? && j / PAGE == op.addr / PAGE {
      SameSide(PAGE, 1024, j, op.addr);
    }
  }

  lemma SameSide(unit: nat, n: nat, i: nat, j: nat)
    requires unit > 0 && i / unit == j / unit
    ensures i < n * unit <==> j < n * unit
  {
    Below(unit, n, i);
    Below(unit, n, j);
  }

  lemma Below(unit: nat, n: nat, i: nat)
    requires unit > 0
    ensures i < n * unit <==> i / unit < n
  {
    var q := i / unit;
    assert q * unit <= i < q * unit + unit;
    if q < n {
      MulMonotone(q + 1, n, unit);
    } else {
      MulMonotone(n, q, unit);
    }
  }

  lemma ShieldConcat(locked: bool, a: seq<FlashOp>, b: seq<FlashOp>)
    ensures ShieldAll(locked, a + b) == ShieldAll(locked, a) + ShieldAll(locked, b)
  {
  }

  lemma ShieldFirst(locked: bool, ops: seq<FlashOp>)
    requires ops != []
    ensures ShieldAll(locked, ops) == [Shield(locked, ops[0])] + ShieldAll(locked, ops[1..])
  {
  }

  /** Nothing is ignored on an unlocked chip, or above the border. */
  lemma ShieldPasses(locked: bool, ops: seq<FlashOp>)
    requires !locked || forall op :: op in ops && (op.Erase? || op.Program?) ==> op.addr >= FACTORY_END
    ensures ShieldAll(locked, ops) == ops
  {
  }

  /** Main result: a byte below the border of a locked chip keeps its value; every other byte is
      what the operations make of it. */
  lemma {:induction false} ShieldAfter(locked: bool, ops: seq<FlashOp>, j: nat, v: u8)
    ensures AfterAll(ShieldAll(locked, ops), j, v) == if locked && j < FACTORY_END then v else AfterAll(ops, j, v)
  {
    hide Touches, AndByte, Shield;
    if ops == [] {
      assert ShieldAll(locked, ops) == [];
    } else {
      ShieldFirst(locked, ops);
      var op, rest := ops[0], ops[1..];
      assert ([Shield(locked, op)] + ShieldAll(locked, rest))[1..] == ShieldAll(locked, rest);
      ShieldTouches(locked, op, j);
      SameEffect(locked, op, j, v);
      ShieldAfter(locked, rest, j, After(Shield(locked, op), j, v));
    }
  }

  lemma SameEffect(locked: bool, op: FlashOp, j: nat, v: u8)
    ensures After(Shield(locked, op), j, v) == if locked && j < FACTORY_END then v else After(op, j, v)
  {
    hide AndByte;
    ShieldTouches(locked, op, j);
  }

  // ----- a part on a locked chip -----

  /** The bytes below the border are those of the data already. */
  predicate InPlace(f: seq<u8>, start: nat, data: seq<u8>) {
    forall i :: 0 <= i < |data| && start + i < FACTORY_END && start + i < |f| ==> f[start + i] == data[i]
  }

  lemma InPlaceSplit(f: seq<u8>, start: nat, data: seq<u8>, n: nat)
    requires n <= |data|
    ensures InPlace(f, start, data) <==> InPlace(f, start, data[..n]) && InPlace(f, start + n, data[n..])
  {
    var head, tail := data[..n], data[n..];
    if InPlace(f, start, head) && InPlace(f, start + n, tail) {
      forall i | 0 <= i < |data| && start + i < FACTORY_END && start + i < |f| ensures f[start + i] == data[i] {
        if i < n {
          assert data[i] == head[i];
        } else {
          assert data[i] == tail[i - n];
        }
      }
    }
    if InPlace(f, start, data) {
      forall i | 0 <= i < |tail| && start + n + i < FACTORY_END && start + n + i < |f|
        ensures f[start + n + i] == tail[i]
      {
        assert tail[i] == data[n + i];
      }
      assert forall i :: 0 <= i < |head| ==> head[i] == data[i];
    }
  }

  lemma {:induction false} ShieldedProgramsIff(f: seq<u8>, start: nat, data: seq<u8>)
    requires start % PAGE == 0 && start + |data| <= |f|
    requires forall j :: start <= j < start + |data| && FACTORY_END <= j ==> f[j] == 0xFF
    ensures !Perform(f, ShieldAll(true, ProgramOps(start, data))).halted <==> InPlace(f, start, data)
    decreases |data|
  {
    hide AndByte, Perform, Touches, Agrees;
    if data == [] || start >= FACTORY_END {
      ProgramsAbove(start, data);
      ShieldPasses(true, ProgramOps(start, data));
      ErasedProgramsAgree(f, start, data);
    } else {
      var n := if |data| < PAGE then |data| else PAGE;
      var page := data[..n];
      var rest := ProgramOps(start + n, data[n..]);
      var skip, read := Ignored(start), ReadBack(start, page);
      assert ShieldAll(true, ProgramOps(start, data)) == [skip, read] + ShieldAll(true, rest);
      PageIsBelow(start, n);
      InPlaceSplit(f, start, data, n);
      IgnoredPage(f, start, page, ShieldAll(true, rest));
      ReadIsInPlace(f, start, page);
      if n == PAGE {
        ShieldedProgramsIff(f, start + n, data[n..]);
      } else {
        assert data[n..] == [] && rest == [];
        NothingToPerform(f);
      }
    }
  }

  lemma NothingToPerform(f: seq<u8>)
    ensures ShieldAll(true, []) == [] && Perform(f, []) == Outcome([], false)
  {
  }

  lemma PageIsBelow(start: nat, n: nat)
    requires start % PAGE == 0 && start < FACTORY_END && n <= PAGE
    ensures start + n <= FACTORY_END
  {
    assert FACTORY_END == 1024 * PAGE;
    Below(PAGE, 1024, start);
    assert start == start / PAGE * PAGE;
    MulMonotone(start / PAGE + 1, 1024, PAGE);
  }

  lemma {:induction false} ProgramsAbove(start: nat, data: seq<u8>)
    requires start % PAGE == 0
    ensures forall op :: op in ProgramOps(start, data) ==> op.addr >= start
  {
    forall op | op in ProgramOps(start, data) ensures op.addr >= start {
      var k :| 0 <= k < |ProgramOps(start, data)| && ProgramOps(start, data)[k] == op;
      ProgramsStayInPage(start, data, k);
    }
  }

  /** A page that is ignored is compared with what was there. */
  lemma IgnoredPage(f: seq<u8>, start: nat, page: seq<u8>, rest: seq<FlashOp>)
    requires start + |page| <= FACTORY_END
    ensures var o := Perform(f, [Ignored(start), ReadBack(start, page)] + rest);
            o.halted <==> ReadFlash(f, start, |page|) != page || Perform(f, rest).halted
  {
    hide AndByte, ReadFlash;
    var a, b := Ignored(start), ReadBack(start, page);
    Untouching(f, a);
    Untouching(f, b);
    assert ([a, b] + rest)[1..] == [b] + rest;
    assert ([b] + rest)[1..] == rest;
  }

  lemma ReadIsInPlace(f: seq<u8>, start: nat, page: seq<u8>)
    requires start + |page| <= FACTORY_END
    ensures ReadFlash(f, start, |page|) == page ==> InPlace(f, start, page)
    ensures start + |page| <= |f| && InPlace(f, start, page) ==> ReadFlash(f, start, |page|) == page
  {
    var r := ReadFlash(f, start, |page|);
    if r == page {
      forall i | 0 <= i < |page| && start + i < |f| ensures f[start + i] == page[i] {
        assert r[i] == f[start + i];
      }
    }
  }

  /** A part does not get through otherwise, whatever the chip holds and however large it is. */
  lemma {:induction false} ShieldedProgramsNeed(f: seq<u8>, start: nat, data: seq<u8>)
    requires start % PAGE == 0
    requires !Perform(f, ShieldAll(true, ProgramOps(start, data))).halted
    ensures InPlace(f, start, data)
    decreases |data|
  {
    hide AndByte, Perform, Touches, Agrees;
    if data != [] && start < FACTORY_END {
      var n := if |data| < PAGE then |data| else PAGE;
      var page := data[..n];
      var rest := ProgramOps(start + n, data[n..]);
      assert ShieldAll(true, ProgramOps(start, data)) == [Ignored(start), ReadBack(start, page)] + ShieldAll(true, rest);
      PageIsBelow(start, n);
      InPlaceSplit(f, start, data, n);
      IgnoredPage(f, start, page, ShieldAll(true, rest));
      ReadIsInPlace(f, start, page);
      if n == PAGE {
        ShieldedProgramsNeed(f, start + n, data[n..]);
      }
    }
  }

  lemma Untouching(f: seq<u8>, op: FlashOp)
    requires op.Ignored? || op.ReadBack? || op.McuWrite?
    ensures Apply(f, [op]) == f
  {
    hide AndByte;
    forall j | 0 <= j < |f| ensures Apply(f, [op])[j] == f[j] {
      AfterOne(op, j, f[j]);
    }
  }

  /** Main result: on a locked chip a part gets through if and only if its bytes below the
      border were in place already. */
  lemma ShieldedPartIff(f: seq<u8>, start: nat, data: seq<u8>)
    requires start % PAGE == 0
    ensures var halted := Perform(f, ShieldAll(true, PartOps(start, data))).halted;
            && (!halted ==> InPlace(f, start, data))
            && (start + |data| <= |f| && InPlace(f, start, data) ==> !halted)
  {
    hide Touches, AndByte, Perform, Agrees, ProgramOps;
    var lo := start / SECTOR * SECTOR;
    var shielded := ShieldAll(true, EraseOps(lo, start + |data|));
    ShieldConcat(true, EraseOps(lo, start + |data|), ProgramOps(start, data));
    ShieldedErases(f, lo, start + |data|);
    var g := Apply(f, shielded);
    if !Perform(g, ShieldAll(true, ProgramOps(start, data))).halted {
      ShieldedProgramsNeed(g, start, data);
    }
    if start + |data| <= |f| {
      forall j | start <= j < start + |data| && FACTORY_END <= j ensures g[j] == 0xFF {
        SectorOf(lo, j);
      }
      ShieldedProgramsIff(g, start, data);
    }
    SameBelow(f, g, start, data);
    PerformConcat(f, shielded, ShieldAll(true, ProgramOps(start, data)));
  }

  lemma ShieldedErases(f: seq<u8>, lo: nat, hi: nat)
    requires lo % SECTOR == 0
    ensures var ops := ShieldAll(true, EraseOps(lo, hi));
            && Perform(f, ops) == Outcome(ops, false)
            && forall j :: 0 <= j < |f| ==>
                 Apply(f, ops)[j] == if j >= FACTORY_END && lo <= j && j / SECTOR * SECTOR < hi then 0xFF else f[j]
  {
    hide Touches, AndByte, Perform, AfterAll;
    var erases := EraseOps(lo, hi);
    var ops := ShieldAll(true, erases);
    forall op | op in ops ensures !op.ReadBack? {
      var i :| 0 <= i < |ops| && ops[i] == op;
      EraseOpsRange(lo, hi, erases[i]);
    }
    PerformBlind(f, ops);
    forall j | 0 <= j < |f|
      ensures Apply(f, ops)[j] == if j >= FACTORY_END && lo <= j && j / SECTOR * SECTOR < hi then 0xFF else f[j]
    {
      ShieldAfter(true, erases, j, f[j]);
      EraseOpsAfter(lo, hi, j, f[j]);
    }
  }

  lemma SameBelow(f: seq<u8>, g: seq<u8>, start: nat, data: seq<u8>)
    requires |g| == |f| && forall j :: 0 <= j < |f| && j < FACTORY_END ==> g[j] == f[j]
    ensures InPlace(g, start, data) <==> InPlace(f, start, data)
  {
    StaysInPlace(f, g, start, data);
    StaysInPlace(g, f, start, data);
  }

  lemma StaysInPlace(f: seq<u8>, g: seq<u8>, start: nat, data: seq<u8>)
    requires |g| == |f| && forall j :: 0 <= j < |f| && j < FACTORY_END ==> g[j] == f[j]
    ensures InPlace(f, start, data) ==> InPlace(g, start, data)
  {
    if !InPlace(g, start, data) {
      var i :| 0 <= i < |data| && start + i < FACTORY_END && start + i < |g| && g[start + i] != data[i];
      assert f[start + i] == g[start + i] != data[i];
    }
  }
}
