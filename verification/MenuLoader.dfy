// Loading the menu right-aligned into the cartridge's 16 MiB of PSRAM, half a bank at a
// time, with 16-bit bank and offset arithmetic.  software/ipl1/src/boot/main.c

module MenuLoader {
  import opened Words

  const PSRAM_SIZE := 0x100_0000
  const PSRAM_MAX_BANK := 255
  const BANK := 0x1_0000
  const HALF := 0x8000
  const FR_OK := 0
  const ERR_FILE_CORRUPT := 0x80

  /** `was` with the first `n` bytes of `file` put where a right-aligned file starts. */
  function Loaded(was: seq<u8>, file: seq<u8>, n: nat): (r: seq<u8>)
    requires n <= |file| <= |was|
    ensures |r| == |was|
    ensures forall j :: 0 <= j < |was| ==>
              r[j] == if 0 <= j - (|was| - |file|) < n then file[j - (|was| - |file|)] else was[j]
  {
    var base := |was| - |file|;
    was[..base] + file[..n] + was[base + n..]
  }

  /** `p` is `was` with the first `n` bytes of `file` loaded, apart from `loose` bytes after those,
      which a failed read may have left in any state. */
  predicate LoadedBut(p: seq<u8>, was: seq<u8>, file: seq<u8>, n: nat, loose: nat)
    requires n <= |file| <= |was|
  {
    |p| == |was| && forall j :: 0 <= j < |was| && !(n <= j - (|was| - |file|) < n + loose) ==>
      p[j] == Loaded(was, file, n)[j]
  }

  /** A read stays within one half bank. */
  function Loose(result: nat): nat {
    if result == FR_OK then 0 else HALF
  }

  /** The half banks that the file's bytes fall into. */
  function HalfBanks(size: nat): nat {
    (size + HALF - 1) / HALF
  }

  /** The bar's length, out of 128, after `i` of `n` half banks. */
  function Bar(i: nat, n: nat): nat
    requires n > 0
  {
    i * 128 / n
  }

  /** The bar is the whole part of its share of 128: it never goes back, and ends full. */
  lemma BarIsMonotone(i: nat, k: nat, n: nat)
    requires i <= k <= n && n > 0
    ensures Bar(i, n) <= Bar(k, n) <= 128
    ensures Bar(n, n) == 128
    ensures Bar(i, n) * n <= i * 128 < (Bar(i, n) + 1) * n
  {
    DivMonotone(i * 128, k * 128, n);
    DivMonotone(k * 128, n * 128, n);
    DivExact(n);
  }

  lemma MulMonotone(n: nat, x: int, y: int)
    requires x <= y
    ensures n * x <= n * y
  {
  }

  lemma DivMonotone(a: nat, b: nat, n: nat)
    requires a <= b && n > 0
    ensures a / n <= b / n
  {
    var p, q := a / n, b / n;
    assert n * p <= a && b < n * q + n;
    if q < p {
      MulMonotone(n, q + 1, p);
    }
  }

  lemma DivExact(n: nat)
    requires n > 0
    ensures n * 128 / n == 128
  {
  }

  class Loader {
    const psram: array<u8>
    const file: seq<u8>
    const failing: Option<nat>     // the file position at which reading fails, if it does
    var position: nat
    var bankCount: nat
    var bankCountMax: nat
    var shown: seq<nat>            // progress bar lengths, in order

    constructor (psram: array<u8>, file: seq<u8>, failing: Option<nat>)
      ensures this.psram == psram && this.file == file && this.failing == failing && position == 0 && shown == []
    {
      this.psram, this.file, this.failing := psram, file, failing;
      position, bankCount, bankCountMax, shown := 0, 0, 0, [];
    }

    method UpdateProgress()
      requires 0 < bankCountMax <= 512 && bankCount < bankCountMax
      modifies this`bankCount, this`shown
      ensures bankCount == old(bankCount) + 1
      ensures shown == old(shown) + [Bar(bankCount, bankCountMax)]
    {
      bankCount := bankCount + 1;
      BarIsMonotone(bankCount, bankCount, bankCountMax);
      var end := bankCount * 128 / bankCountMax % 0x1_0000;
      if end > 128 {
        end := 128;
      }
      shown := shown + [end];
    }

    /** f_read of `n` bytes to an offset of a bank; `was` is what PSRAM held at first.  A read that
        fails may have stored anything in its range. */
    method Read(bank: nat, offset: nat, n: nat, ghost was: seq<u8>) returns (result: nat)
      requires n <= HALF && psram.Length == PSRAM_SIZE == |was| && position + n <= |file| <= PSRAM_SIZE
      requires bank * BANK + offset == PSRAM_SIZE - |file| + position
      requires psram[..] == Loaded(was, file, position)
      modifies this`position, psram
      ensures result == FR_OK ==> position == old(position) + n
      ensures result != FR_OK ==> position == old(position) && failing != None && failing.value < position + n
      ensures result == FR_OK ==> failing == None || failing.value >= position
      ensures LoadedBut(psram[..], was, file, position, Loose(result))
    {
      hide Loaded;
      ghost var before, from := psram[..], position;
      var start := bank * BANK + offset;
      if failing.Some? && failing.value < position + n {
        var stored := AnyBytes(n);
        forall i | 0 <= i < n {
          psram[start + i] := stored[i];
        }
        FailedRead(before, psram[..], was, file, from, n);
        return 1;
      }
      forall i | 0 <= i < n {
        psram[start + i] := file[position + i];
      }
      position := position + n;
      GoodRead(before, psram[..], was, file, from, n);
      result := FR_OK;
    }

    /** How many half banks are behind, when the file position is at a half-bank boundary. */
    ghost function Behind(): nat
      requires position <= |file|
      reads this
    {
      HalfBanks(|file|) - HalfBanks(|file| - position)
    }

    ghost predicate Progressed()
      requires 0 < |file|
      reads this
    {
      && bankCountMax == HalfBanks(|file|) && |shown| == bankCount
      && forall i :: 0 <= i < |shown| ==> shown[i] == Bar(i + 1, bankCountMax)
    }

    /** The next byte goes to `offset` of `bank`; everything before it is in place. */
    ghost predicate At(bank: nat, offset: nat, was: seq<u8>)
      reads this, psram
    {
      && psram.Length == PSRAM_SIZE == |was| && 0 < |file| <= PSRAM_SIZE && position <= |file|
      && bank * BANK + offset == PSRAM_SIZE - |file| + position
      && psram[..] == Loaded(was, file, position)
      && Progressed() && bankCount == Behind()
    }

    method ReadHalfBank(bank: nat, offset: nat, n: nat, ghost was: seq<u8>) returns (result: nat)
      requires At(bank, offset, was) && 0 < n <= HALF && bank <= PSRAM_MAX_BANK && offset + n <= BANK
      requires (offset + n) % HALF == 0
      modifies this`position, this`bankCount, this`shown, psram
      ensures psram.Length == PSRAM_SIZE == |was| && position <= |file|
      ensures LoadedBut(psram[..], was, file, position, Loose(result)) && Progressed()
      ensures bankCount <= HalfBanks(|file|)
      ensures result == FR_OK ==> At(bank, offset + n, was)
      ensures result != FR_OK ==> failing != None
    {
      hide Loaded, HalfBanks, Bar;
      HalfBankStep(|file| - position, n) by { Fits(bank, offset, n, |file| - position); }
      FewHalfBanks(|file|);
      MoreHalfBanks(|file|, |file| - position);
      UpdateProgress();
      result := Read(bank, offset, n, was);
    }

    /** The loop over banks. */
    method ReadBanks(first: nat, start: nat, ghost was: seq<u8>) returns (result: nat)
      requires At(first, start, was) && first <= PSRAM_MAX_BANK && start < BANK
      modifies this`position, this`bankCount, this`shown, psram
      ensures position <= |file| && LoadedBut(psram[..], was, file, position, Loose(result)) && Progressed()
      ensures bankCount <= HalfBanks(|file|)
      ensures result == FR_OK ==> position == |file| && bankCount == HalfBanks(|file|)
      ensures result != FR_OK ==> failing != None
    {
      hide Loaded, HalfBanks, Bar;
      var bank: nat, offset: nat := first, start;
      while bank <= PSRAM_MAX_BANK
        invariant bank <= PSRAM_MAX_BANK + 1 && offset < BANK && (bank > PSRAM_MAX_BANK ==> offset == 0)
        invariant At(bank, offset, was)
        decreases PSRAM_MAX_BANK + 1 - bank
      {
        hide Progressed, Behind;
        if offset < HALF {
          result := ReadHalfBank(bank, offset, HALF - offset, was);
          if result != FR_OK {
            return;
          }
          offset := HALF;
        }
        result := ReadHalfBank(bank, offset, BANK - offset, was);
        if result != FR_OK {
          return;
        }
        offset := 0;
        bank := (bank + 1) % BANK;
      }
      assert HalfBanks(0) == 0 by { NoHalfBanks(); }
      result := FR_OK;
    }

    lemma ShownSoFar()
      requires 0 < |file| && Progressed() && position <= |file| && bankCount <= HalfBanks(|file|)
      ensures var n := (|file| + 0x7FFF) / 0x8000;
              |shown| <= n && forall i :: 0 <= i < |shown| ==> shown[i] == (i + 1) * 128 / n
    {
    }

    method LoadMenu() returns (result: nat)
      requires psram.Length == PSRAM_SIZE && position == 0 && shown == [] && |file| < 0x1_0000_0000
      modifies this, psram
      ensures |file| < 16 ==> result == 0x80 && psram[..] == old(psram[..]) && shown == []
      ensures |file| > 0x100_0000 ==> psram[..] == old(psram[..]) && shown == []
      ensures 16 <= |file| <= 0x100_0000 ==>
                var base := 0x100_0000 - |file|;
                && position <= |file| && (position < |file| ==> result != 0)
                && (forall j :: 0 <= j < base ==> psram[j] == old(psram[j]))
                && (forall j :: base <= j < base + position ==> psram[j] == file[j - base])
                && (forall j :: base + position + 0x8000 <= j < 0x100_0000 ==> psram[j] == old(psram[j]))
                && (failing == None ==> position == |file|)
      ensures 16 <= |file| <= 0x100_0000 ==>
                var n := (|file| + 0x7FFF) / 0x8000;
                && |shown| <= n && (failing == None ==> |shown| == n)
                && forall i :: 0 <= i < |shown| ==> shown[i] == (i + 1) * 128 / n
      ensures 16 <= |file| <= 0x100_0000 && failing == None ==>
                (if file[|file| - 16] == 0xEA && file[|file| - 12] >= 0x20 then result == 0 else result == 0x80)
      ensures |file| > 0x100_0000 ==>
                (if psram[0xFF_FFF0] == 0xEA && psram[0xFF_FFF4] >= 0x20 then result == 0 else result == 0x80)
    {
      hide Loaded, HalfBanks, Bar;
      ghost var was := psram[..];
      var size := |file|;
      if size < 16 {
        return ERR_FILE_CORRUPT;
      }
      var offset := 0xFFFF - (size - 1) % BANK;
      var bank := (PSRAM_MAX_BANK - (size - 1) / BANK) % BANK;
      bankCount := 0;
      bankCountMax := ((PSRAM_MAX_BANK + 1 - bank) * 2 - (if offset >= HALF then 1 else 0)) % BANK;
      if bank <= PSRAM_MAX_BANK {
        FirstPosition(size);
        NothingLoaded(was, file);
        result := ReadBanks(bank, offset, was);
        BytesInPlace(psram[..], was, file, position, Loose(result));
        ShownSoFar();
        if result != FR_OK {
          return;
        }
      }
      LastBytes(psram[..], was, file, position);
      if psram[PSRAM_SIZE - 16] != 0xEA || psram[PSRAM_SIZE - 12] < 0x20 {
        return ERR_FILE_CORRUPT;
      }
      result := FR_OK;
    }
  }

  /** The bank computed in sixteen bits is one of the chip's exactly for files that fit; a larger
      file is not loaded at all. */
  lemma BankIsRealIff(size: nat)
    requires 16 <= size < 0x1_0000_0000
    ensures (PSRAM_MAX_BANK - (size - 1) / BANK) % BANK <= PSRAM_MAX_BANK <==> size <= PSRAM_SIZE
  {
    var q := (size - 1) / BANK;
    assert 0 <= q <= 0xFFFF;
    assert size <= PSRAM_SIZE <==> q <= PSRAM_MAX_BANK;
    if q > PSRAM_MAX_BANK {
      assert (PSRAM_MAX_BANK - q) % BANK == PSRAM_MAX_BANK - q + BANK;
    }
  }

  /** Contents that nothing is known of. */
  method AnyBytes(n: nat) returns (b: seq<u8>)
    ensures |b| == n
  {
    assert |seq(n, _ => 0 as u8)| == n;
    b :| |b| == n;
  }

  lemma BytesInPlace(p: seq<u8>, was: seq<u8>, file: seq<u8>, n: nat, loose: nat)
    requires n <= |file| <= |was| && loose <= 0x8000 && LoadedBut(p, was, file, n, loose)
    ensures var base := |was| - |file|;
            && (forall j :: 0 <= j < base ==> p[j] == was[j])
            && (forall j :: base <= j < base + n ==> p[j] == file[j - base])
            && (forall j :: base + n + 0x8000 <= j < |was| ==> p[j] == was[j])
  {
  }

  /** The last bytes of a loaded file are the last ones of the chip. */
  lemma LastBytes(p: seq<u8>, was: seq<u8>, file: seq<u8>, n: nat)
    requires |p| == PSRAM_SIZE
    ensures 16 <= |file| <= |was| == PSRAM_SIZE && n == |file| && LoadedBut(p, was, file, n, 0) ==>
              p[PSRAM_SIZE - 16] == file[|file| - 16] && p[PSRAM_SIZE - 12] == file[|file| - 12]
  {
  }

  lemma FailedRead(before: seq<u8>, after: seq<u8>, was: seq<u8>, file: seq<u8>, from: nat, n: nat)
    requires from + n <= |file| <= |was| && before == Loaded(was, file, from) && |after| == |was| && n <= HALF
    requires forall j :: 0 <= j < |was| && !(|was| - |file| + from <= j < |was| - |file| + from + n) ==>
               after[j] == before[j]
    ensures LoadedBut(after, was, file, from, HALF)
  {
  }

  lemma GoodRead(before: seq<u8>, after: seq<u8>, was: seq<u8>, file: seq<u8>, from: nat, n: nat)
    requires from + n <= |file| <= |was| && before == Loaded(was, file, from) && |after| == |was|
    requires forall j :: 0 <= j < |was| ==>
               var i := j - (|was| - |file|);
               after[j] == if from <= i < from + n then file[i] else before[j]
    ensures LoadedBut(after, was, file, from + n, 0)
  {
    forall j | 0 <= j < |was| ensures after[j] == Loaded(was, file, from + n)[j] {
    }
  }

  lemma NothingLoaded(was: seq<u8>, file: seq<u8>)
    requires |file| <= |was|
    ensures Loaded(was, file, 0) == was
  {
  }

  lemma NoHalfBanks()
    ensures HalfBanks(0) == 0
  {
  }

  lemma FewHalfBanks(size: nat)
    requires 0 < size <= PSRAM_SIZE
    ensures 0 < HalfBanks(size) <= 512
  {
  }

  lemma MoreHalfBanks(size: nat, left: nat)
    requires left <= size
    ensures HalfBanks(left) <= HalfBanks(size)
  {
  }

  /** Up to the end of a half bank is never more than what is left of the file. */
  lemma Fits(bank: nat, offset: nat, n: nat, left: nat)
    requires bank * BANK + offset == PSRAM_SIZE - left && bank <= PSRAM_MAX_BANK && offset + n <= BANK
    requires (offset + n) % HALF == 0
    ensures n <= left && (left - n) % HALF == 0
  {
    assert left - n == PSRAM_SIZE - bank * BANK - (offset + n);
    var k := (offset + n) / HALF;
    assert left - n == (512 - 2 * bank - k) * HALF;
  }

  /** Where the 16-bit expressions start a file that fits: `size` bytes before the end of PSRAM,
      with as many half banks to go as the file spans. */
  lemma FirstPosition(size: nat)
    requires 0 < size <= PSRAM_SIZE
    ensures var offset := 0xFFFF - (size - 1) % BANK;
            var bank := PSRAM_MAX_BANK - (size - 1) / BANK;
            && 0 <= bank && bank * BANK + offset == PSRAM_SIZE - size
            && (PSRAM_MAX_BANK + 1 - bank) * 2 - (if offset >= HALF then 1 else 0) == HalfBanks(size)
            && HalfBanks(size) <= 512
  {
    var q, r := (size - 1) / BANK, (size - 1) % BANK;
    assert size == q * BANK + r + 1;
    assert HalfBanks(size) == 2 * q + (r + HALF) / HALF;
  }

  /** Reading up to the next half-bank boundary completes one half bank. */
  lemma HalfBankStep(left: nat, n: nat)
    requires 0 < n <= HALF && n <= left && (left - n) % HALF == 0
    ensures HalfBanks(left) == HalfBanks(left - n) + 1
  {
    var q := (left - n) / HALF;
    assert left - n == q * HALF;
    assert HalfBanks(left - n) == q;
    assert left + HALF - 1 == (q + 1) * HALF + (n - 1);
  }
}
