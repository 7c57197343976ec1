// SPI NOR flash, byte by byte: a sector erase sets bytes to 0xFF, a page program
// can only clear bits and stays inside its 256-byte page.

module NorFlash {
  import opened Words

  const SECTOR := 4096
  const PAGE := 256

  datatype FlashOp =
    | Erase(addr: nat)                        // nile_flash_erase_part, 4 KiB
    | Program(addr: nat, bytes: seq<u8>)      // nile_flash_write_page
    | ReadBack(addr: nat, want: seq<u8>)      // nile_flash_read, then a comparison
    | McuWrite(addr: nat, bytes: seq<u8>)     // one part sent to the microcontroller's own flash
    | Ignored(addr: nat)                      // an erase or a program of a protected area

  /** Bitwise AND of the `n` low bits. */
  function And(a: nat, b: nat, n: nat): (r: nat)
    ensures r < Pow2(n)
  {
    if n == 0 then 0
    else 2 * And(a / 2, b / 2, n - 1) + (if a % 2 == 1 && b % 2 == 1 then 1 else 0)
  }

  lemma {:induction false} AndOnes(b: nat, n: nat)
    requires b < Pow2(n)
    ensures And(Pow2(n) - 1, b, n) == b
  {
    if n > 0 {
      AndOnes(b / 2, n - 1);
      assert (Pow2(n) - 1) / 2 == Pow2(n - 1) - 1;
    }
  }

  lemma {:induction false} AndSame(a: nat, n: nat)
    requires a < Pow2(n)
    ensures And(a, a, n) == a
  {
    if n > 0 {
      AndSame(a / 2, n - 1);
    }
  }

  /** Bit `k` of the result is set if it is in both operands: programming only clears bits. */
  lemma {:induction false} AndBit(a: nat, b: nat, n: nat, k: nat)
    requires k < n
    ensures And(a, b, n) / Pow2(k) % 2 == 1 <==> a / Pow2(k) % 2 == 1 && b / Pow2(k) % 2 == 1
    decreases k
  {
    if k > 0 {
      AndBit(a / 2, b / 2, n - 1, k - 1);
      assert And(a, b, n) / 2 == And(a / 2, b / 2, n - 1);
      DivTwice(And(a, b, n), Pow2(k - 1));
      DivTwice(a, Pow2(k - 1));
      DivTwice(b, Pow2(k - 1));
    }
  }

  function AndByte(a: u8, b: u8): (r: u8)
  {
    Pow8();
    And(a, b, 8)
  }

  lemma Pow8()
    ensures Pow2(8) == 256
  {
    assert Pow2(4) == 16 && Pow2(6) == 64;
  }

  lemma AndByteFacts(a: u8, b: u8)
    ensures AndByte(0xFF, b) == b && AndByte(a, a) == a
    ensures AndByte(a, 0) == 0
  {
    Pow8();
    AndOnes(b, 8);
    AndSame(a, 8);
    AndZero(a, 8);
  }

  lemma {:induction false} AndZero(a: nat, n: nat)
    ensures And(a, 0, n) == 0
  {
    if n > 0 {
      AndZero(a / 2, n - 1);
    }
  }

  // ----- one byte through operations -----

  /** Does the operation reach the byte at `j`?  A program that overruns its page wraps in it. */
  predicate Touches(op: FlashOp, j: nat) {
    match op
    case Erase(a) => j / SECTOR == a / SECTOR
    case Program(a, bytes) => j / PAGE == a / PAGE && (j - a) % PAGE < |bytes|
    case ReadBack(_, _) => false
    case McuWrite(_, _) => false
    case Ignored(_) => false
  }

  function After(op: FlashOp, j: nat, v: u8): u8 {
    if !Touches(op, j) then v
    else if op.Erase? then 0xFF
    else AndByte(v, op.bytes[(j - op.addr) % PAGE])
  }

  function AfterAll(ops: seq<FlashOp>, j: nat, v: u8): u8 {
    if ops == [] then v else AfterAll(ops[1..], j, After(ops[0], j, v))
  }

  lemma {:induction false} AfterConcat(a: seq<FlashOp>, b: seq<FlashOp>, j: nat, v: u8)
    ensures AfterAll(a + b, j, v) == AfterAll(b, j, AfterAll(a, j, v))
  {
    if a == [] {
      assert a + b == b;
    } else {
      assert (a + b)[1..] == a[1..] + b;
      AfterConcat(a[1..], b, j, After(a[0], j, v));
    }
  }

  predicate Untouched(ops: seq<FlashOp>, j: nat) {
    forall op :: op in ops ==> !Touches(op, j)
  }

  lemma {:induction false} UntouchedStays(ops: seq<FlashOp>, j: nat, v: u8)
    requires Untouched(ops, j)
    ensures AfterAll(ops, j, v) == v
  {
    if ops != [] {
      assert ops[0] in ops;
      assert forall op :: op in ops[1..] ==> op in ops;
      UntouchedStays(ops[1..], j, v);
    }
  }

  // ----- the whole array -----

  function Apply(f: seq<u8>, ops: seq<FlashOp>): (g: seq<u8>)
    ensures |g| == |f|
    ensures forall j :: 0 <= j < |f| ==> g[j] == AfterAll(ops, j, f[j])
  {
    seq(|f|, j requires 0 <= j < |f| => AfterAll(ops, j, f[j]))
  }

  lemma ApplyConcat(f: seq<u8>, a: seq<FlashOp>, b: seq<FlashOp>)
    ensures Apply(f, a + b) == Apply(Apply(f, a), b)
  {
    forall j | 0 <= j < |f| ensures Apply(f, a + b)[j] == Apply(Apply(f, a), b)[j] {
      AfterConcat(a, b, j, f[j]);
    }
  }

  lemma ApplyNone(f: seq<u8>)
    ensures Apply(f, []) == f
  {
  }

  /** Bytes beyond the end of the chip read as erased. */
  function ReadFlash(f: seq<u8>, addr: nat, len: nat): (r: seq<u8>)
    ensures |r| == len
    ensures forall i :: 0 <= i < len ==> r[i] == if addr + i < |f| then f[addr + i] else 0xFF
  {
    seq(len, i requires 0 <= i < len => if addr + i < |f| then f[addr + i] else 0xFF)
  }

  // ----- operations that stop at a failed comparison -----

  /** Flash operations performed, and whether the updater stopped for good. */
  datatype Outcome = Outcome(ops: seq<FlashOp>, halted: bool)

  /** Does the operation find what it expects?  Only read-backs compare anything. */
  predicate Agrees(f: seq<u8>, op: FlashOp) {
    op.ReadBack? ==> ReadFlash(f, op.addr, |op.want|) == op.want
  }

  /** Runs `ops` in order and stops after the first read-back that disagrees. */
  function Perform(f: seq<u8>, ops: seq<FlashOp>): Outcome
    decreases |ops|
  {
    if ops == [] then Outcome([], false)
    else if !Agrees(f, ops[0]) then Outcome([ops[0]], true)
    else
      var rest := Perform(Apply(f, [ops[0]]), ops[1..]);
      Outcome([ops[0]] + rest.ops, rest.halted)
  }

  /** What is performed is the whole list, or a part of it that ends in the comparison that failed. */
  lemma {:induction false} PerformIsPrefix(f: seq<u8>, ops: seq<FlashOp>)
    ensures var o := Perform(f, ops);
            && o.ops <= ops
            && (!o.halted ==> o.ops == ops)
            && (o.halted ==> o.ops != [] && !Agrees(Apply(f, o.ops[..|o.ops| - 1]), o.ops[|o.ops| - 1]))
    decreases |ops|
  {
    if ops != [] {
      var g := Apply(f, [ops[0]]);
      var rest := Perform(g, ops[1..]);
      PerformIsPrefix(g, ops[1..]);
      assert ops == [ops[0]] + ops[1..];
      if !Agrees(f, ops[0]) {
        ApplyNone(f);
        assert [ops[0]][..0] == [];
      } else if rest.halted {
        var n := |rest.ops| - 1;
        ApplyConcat(f, [ops[0]], rest.ops[..n]);
        assert ([ops[0]] + rest.ops)[..n + 1] == [ops[0]] + rest.ops[..n];
      }
    }
  }

  lemma {:induction false} PerformConcat(f: seq<u8>, a: seq<FlashOp>, b: seq<FlashOp>)
    ensures Perform(f, a + b) ==
            if Perform(f, a).halted then Perform(f, a)
            else Outcome(a + Perform(Apply(f, a), b).ops, Perform(Apply(f, a), b).halted)
    decreases |a|
  {
    hide Touches, AndByte, Agrees;
    if a == [] {
      assert a + b == b;
      ApplyNone(f);
    } else {
      assert (a + b)[1..] == a[1..] + b;
      var g := Apply(f, [a[0]]);
      PerformConcat(g, a[1..], b);
      ApplyConcat(f, [a[0]], a[1..]);
      assert [a[0]] + a[1..] == a;
      PerformIsPrefix(g, a[1..]);
    }
  }

  lemma {:induction false} PerformBlind(f: seq<u8>, ops: seq<FlashOp>)
    requires forall op :: op in ops ==> !op.ReadBack?
    ensures Perform(f, ops) == Outcome(ops, false)
    decreases |ops|
  {
    if ops != [] {
      PerformBlind(Apply(f, [ops[0]]), ops[1..]);
      assert ops == [ops[0]] + ops[1..];
    }
  }

  // ----- flashing a part -----

  /** Erases of 4 KiB from `lo` up to, not including, `hi`. */
  function EraseOps(lo: nat, hi: nat): seq<FlashOp>
    decreases if lo < hi then hi - lo else 0
  {
    if lo < hi then [Erase(lo)] + EraseOps(lo + SECTOR, hi) else []
  }

  /** Page by page: program, then read back. */
  function ProgramOps(start: nat, data: seq<u8>): seq<FlashOp>
    decreases |data|
  {
    if data == [] then []
    else
      var n := if |data| < PAGE then |data| else PAGE;
      [Program(start, data[..n]), ReadBack(start, data[..n])] + ProgramOps(start + n, data[n..])
  }

  function PartOps(start: nat, data: seq<u8>): seq<FlashOp> {
    EraseOps(start / SECTOR * SECTOR, start + |data|) + ProgramOps(start, data)
  }

  /** Is `j` in a sector that overlaps `len` bytes from `start`? */
  predicate Covered(start: nat, len: nat, j: nat) {
    start / SECTOR * SECTOR <= j && j / SECTOR * SECTOR < start + len
  }

  /** The byte at `j` once `data` has been flashed at `start`: the data, and nothing else in
      the covering sectors. */
  function Flashed(start: nat, data: seq<u8>, j: nat, v: u8): u8 {
    if start <= j < start + |data| then data[j - start]
    else if Covered(start, |data|, j) then 0xFF
    else v
  }

  lemma {:induction false} EraseOpsAfter(lo: nat, hi: nat, j: nat, v: u8)
    requires lo % SECTOR == 0
    ensures AfterAll(EraseOps(lo, hi), j, v) == if lo <= j && j / SECTOR * SECTOR < hi then 0xFF else v
    decreases if lo < hi then hi - lo else 0
  {
    if lo < hi {
      var rest := EraseOps(lo + SECTOR, hi);
      EraseOpsAfter(lo + SECTOR, hi, j, After(Erase(lo), j, v));
      assert ([Erase(lo)] + rest)[1..] == rest;
      SectorOf(lo, j);
    }
  }

  lemma SectorOf(lo: nat, j: nat)
    requires lo % SECTOR == 0
    ensures j / SECTOR == lo / SECTOR <==> lo <= j < lo + SECTOR
    ensures lo <= j ==> lo <= j / SECTOR * SECTOR
    ensures j / SECTOR * SECTOR <= j
  {
  }

  lemma InsideIsCovered(start: nat, n: nat, j: nat)
    ensures start <= j < start + n ==> Covered(start, n, j)
  {
    SectorOf(start / SECTOR * SECTOR, j);
  }

  lemma PageOf(start: nat, n: nat, j: nat)
    requires start % PAGE == 0 && n <= PAGE
    ensures j / PAGE == start / PAGE && (j - start) % PAGE < n <==> start <= j < start + n
    ensures start <= j < start + n ==> (j - start) % PAGE == j - start
  {
    if j / PAGE == start / PAGE {
      assert start <= j < start + PAGE;
      assert (j - start) % PAGE == j - start;
    }
  }

  lemma AfterTwo(a: FlashOp, b: FlashOp, rest: seq<FlashOp>, j: nat, v: u8)
    requires !Touches(b, j)
    ensures AfterAll([a, b] + rest, j, v) == AfterAll(rest, j, After(a, j, v))
  {
    hide Touches, AndByte;
    assert ([a, b] + rest)[1..] == [b] + rest;
    assert ([b] + rest)[1..] == rest;
    assert After(b, j, After(a, j, v)) == After(a, j, v);
  }

  lemma {:induction false} ProgramOpsAfter(start: nat, data: seq<u8>, j: nat, v: u8)
    requires start % PAGE == 0
    ensures AfterAll(ProgramOps(start, data), j, v) ==
            if start <= j < start + |data| then AndByte(v, data[j - start]) else v
    decreases |data|
  {
    hide AndByte;
    if data != [] {
      var n := if |data| < PAGE then |data| else PAGE;
      var op := Program(start, data[..n]);
      AfterTwo(op, ReadBack(start, data[..n]), ProgramOps(start + n, data[n..]), j, v);
      PageOf(start, n, j);
      if n == PAGE {
        ProgramOpsAfter(start + n, data[n..], j, After(op, j, v));
      }
    }
  }

  /** The covering sectors are those from the first byte's to the last one's. */
  lemma CoveredSectors(start: nat, n: nat, j: nat)
    ensures n > 0 ==> (Covered(start, n, j) <==> start / 4096 <= j / 4096 <= (start + n - 1) / 4096)
  {
    var a, b := start / 4096, j / 4096;
    assert a * 4096 <= j <==> a <= b;
    if n > 0 {
      var c := (start + n - 1) / 4096;
      assert b * 4096 <= start + n - 1 <==> b <= c;
    }
  }

  /** Flashing leaves the data in its range, the rest of the covering sectors erased and every
      other byte as it was. */
  lemma PartOpsAfter(start: nat, data: seq<u8>, j: nat, v: u8)
    requires start % PAGE == 0
    ensures AfterAll(PartOps(start, data), j, v) == Flashed(start, data, j, v)
    ensures data != [] ==>
              AfterAll(PartOps(start, data), j, v) ==
              if start <= j < start + |data| then data[j - start]
              else if start / 4096 <= j / 4096 <= (start + |data| - 1) / 4096 then 0xFF
              else v
  {
    CoveredSectors(start, |data|, j);
    var lo := start / SECTOR * SECTOR;
    EraseOpsAfter(lo, start + |data|, j, v);
    AfterConcat(EraseOps(lo, start + |data|), ProgramOps(start, data), j, v);
    ProgramOpsAfter(start, data, j, AfterAll(EraseOps(lo, start + |data|), j, v));
    if start <= j < start + |data| {
      SectorOf(lo, j);
      AndByteFacts(0xFF, data[j - start]);
    }
  }

  /** No program leaves its page, and each is followed by a read-back of the same bytes. */
  lemma {:induction false} ProgramsStayInPage(start: nat, data: seq<u8>, k: nat)
    requires start % PAGE == 0 && k < |ProgramOps(start, data)|
    ensures var op := ProgramOps(start, data)[k];
            && (op.Program? ==> op.addr % PAGE + |op.bytes| <= PAGE)
            && !op.Erase? && start <= op.addr
            && (op.Program? ==> op.addr + |op.bytes| <= start + |data|)
    decreases |data|
  {
    var n := if |data| < PAGE then |data| else PAGE;
    if k >= 2 {
      ProgramsStayInPage(start + n, data[n..], k - 2);
    }
  }

  /** Whatever the flash held, each program finds the bytes it writes erased. */
  lemma {:induction false} ProgramsFindErased(start: nat, data: seq<u8>, k: nat, j: nat)
    requires start % PAGE == 0 && k < |ProgramOps(start, data)|
    requires Touches(ProgramOps(start, data)[k], j)
    ensures AfterAll(ProgramOps(start, data)[..k], j, 0xFF) == 0xFF
    ensures start <= j < start + |data|
    decreases |data|
  {
    var n := if |data| < PAGE then |data| else PAGE;
    var ops := ProgramOps(start, data);
    PageOf(start, n, j);
    if k >= 2 {
      var rest := ProgramOps(start + n, data[n..]);
      assert ops[2..] == rest && ops[k] == rest[k - 2];
      assert n == PAGE;
      ProgramsFindErased(start + n, data[n..], k - 2, j);
      assert ops[..k][1..][1..] == rest[..k - 2];
      FirstPagePasses(ops[..k], j, 0xFF);
    } else {
      assert k == 0;
    }
  }

  lemma FirstPagePasses(ops: seq<FlashOp>, j: nat, v: u8)
    requires |ops| >= 2 && !Touches(ops[0], j) && !Touches(ops[1], j)
    ensures AfterAll(ops, j, v) == AfterAll(ops[1..][1..], j, v)
  {
    assert After(ops[0], j, v) == v;
  }

  /** Every operation of a part stays within the covering sectors. */
  lemma PartOpsStayCovered(start: nat, data: seq<u8>, op: FlashOp, j: nat)
    requires start % PAGE == 0 && op in PartOps(start, data) && Touches(op, j)
    ensures Covered(start, |data|, j)
  {
    var lo := start / SECTOR * SECTOR;
    if op in EraseOps(lo, start + |data|) {
      EraseOpsRange(lo, start + |data|, op);
      SectorOf(op.addr, j);
    } else {
      var k :| 0 <= k < |ProgramOps(start, data)| && ProgramOps(start, data)[k] == op;
      ProgramsFindErased(start, data, k, j);
      SectorOf(lo, j);
    }
  }

  lemma {:induction false} EraseOpsRange(lo: nat, hi: nat, op: FlashOp)
    requires lo % SECTOR == 0 && op in EraseOps(lo, hi)
    ensures op.Erase? && op.addr % SECTOR == 0 && lo <= op.addr < hi
    decreases if lo < hi then hi - lo else 0
  {
    if op != Erase(lo) {
      EraseOpsRange(lo + SECTOR, hi, op);
    }
  }

  // ----- a part never disagrees with itself -----

  lemma {:induction false} ErasedProgramsAgree(f: seq<u8>, start: nat, data: seq<u8>)
    requires start % PAGE == 0 && start + |data| <= |f|
    requires forall j :: start <= j < start + |data| ==> f[j] == 0xFF
    ensures !Perform(f, ProgramOps(start, data)).halted
    decreases |data|
  {
    hide AndByte;
    if data != [] {
      var n := if |data| < PAGE then |data| else PAGE;
      var page := data[..n];
      var program, read := Program(start, page), ReadBack(start, page);
      var g := Apply(f, [program]);
      forall j | 0 <= j < |f| ensures g[j] == if start <= j < start + n then page[j - start] else f[j] {
        AfterOne(program, j, f[j]);
        PageOf(start, n, j);
        if start <= j < start + n {
          AndByteFacts(0xFF, page[j - start]);
        }
      }
      assert ReadFlash(g, start, n) == page;
      forall j | 0 <= j < |f| ensures Apply(g, [read])[j] == g[j] {
        AfterOne(read, j, g[j]);
      }
      assert Apply(g, [read]) == g;
      if n == PAGE {
        ErasedProgramsAgree(g, start + n, data[n..]);
      }
      PerformTwo(f, program, read, ProgramOps(start + n, data[n..]));
    }
  }

  lemma AfterOne(op: FlashOp, j: nat, v: u8)
    ensures AfterAll([op], j, v) == After(op, j, v)
  {
    hide Touches, AndByte;
    assert [op][1..] == [];
  }

  lemma PerformTwo(f: seq<u8>, a: FlashOp, b: FlashOp, rest: seq<FlashOp>)
    requires Agrees(f, a) && Agrees(Apply(f, [a]), b)
    ensures Perform(f, [a, b] + rest).halted == Perform(Apply(Apply(f, [a]), [b]), rest).halted
  {
    hide Touches, AndByte, Agrees;
    assert ([a, b] + rest)[1..] == [b] + rest;
    assert ([b] + rest)[1..] == rest;
  }

  /** On a part that fits the chip, whatever the chip held, no read-back ever disagrees. */
  lemma PartAlwaysAgrees(f: seq<u8>, start: nat, data: seq<u8>)
    requires start % PAGE == 0 && start + |data| <= |f|
    ensures Perform(f, PartOps(start, data)) == Outcome(PartOps(start, data), false)
  {
    hide Touches, AndByte, Perform, Agrees, ProgramOps;
    var lo := start / SECTOR * SECTOR;
    var erases := EraseOps(lo, start + |data|);
    assert Perform(f, erases) == Outcome(erases, false) by {
      forall op | op in erases ensures !op.ReadBack? {
        EraseOpsRange(lo, start + |data|, op);
      }
      PerformBlind(f, erases);
    }
    var g := Apply(f, erases);
    assert !Perform(g, ProgramOps(start, data)).halted by {
      forall j | start <= j < start + |data| ensures g[j] == 0xFF {
        EraseOpsAfter(lo, start + |data|, j, f[j]);
        SectorOf(lo, j);
      }
      ErasedProgramsAgree(g, start, data);
    }
    PerformConcat(f, erases, ProgramOps(start, data));
    PerformIsPrefix(f, PartOps(start, data));
  }
}
