// Machine words and bit strings shared by every model in the project.

module Words {

  type u8 = x: int | 0 <= x < 0x100
  type u16 = x: int | 0 <= x < 0x1_0000
  type u32 = x: int | 0 <= x < 0x1_0000_0000

  datatype Option<+T> = None | Some(value: T)

  /** The `n` low bits of `w`, most significant bit first. */
  function ToBits(w: nat, n: nat): (b: seq<bool>)
    ensures |b| == n
  {
    if n == 0 then [] else ToBits(w / 2, n - 1) + [w % 2 == 1]
  }

  /** The number that a bit string denotes, most significant bit first. */
  function FromBits(b: seq<bool>): nat {
    if b == [] then 0
    else 2 * FromBits(b[..|b| - 1]) + (if b[|b| - 1] then 1 else 0)
  }

  function Pow2(n: nat): (p: nat)
    ensures p > 0
  {
    if n == 0 then 1 else 2 * Pow2(n - 1)
  }

  lemma MulMonotone(a: nat, b: nat, unit: nat)
    requires a <= b
    ensures a * unit <= b * unit
  {
  }

  lemma DivTwice(v: nat, p: nat)
    requires p > 0
    ensures v / 2 / p == v / (2 * p)
  {
    var q := v / 2 / p;
    var r := v / 2 - q * p;
    assert v / 2 == q * p + r && 0 <= r < p;
    assert v == q * (2 * p) + (2 * r + v % 2) && 0 <= 2 * r + v % 2 < 2 * p;
    DivIs(v, 2 * p, q, 2 * r + v % 2);
  }

  lemma DivIs(v: nat, d: nat, q: nat, r: nat)
    requires d > 0 && v == q * d + r && r < d
    ensures v / d == q
  {
    var x := v / d;
    var y := v % d;
    assert v == x * d + y && 0 <= y < d;
    if x < q {
      MulMonotone(x + 1, q, d);
    } else if q < x {
      MulMonotone(q + 1, x, d);
    }
  }

  lemma {:induction false} FromBitsToBits(w: nat, n: nat)
    requires w < Pow2(n)
    ensures FromBits(ToBits(w, n)) == w
  {
    if n > 0 {
      FromBitsToBits(w / 2, n - 1);
      assert ToBits(w, n)[..n - 1] == ToBits(w / 2, n - 1);
    }
  }

  lemma {:induction false} ToBitsFromBits(b: seq<bool>)
    ensures FromBits(b) < Pow2(|b|)
    ensures ToBits(FromBits(b), |b|) == b
  {
    if b != [] {
      ToBitsFromBits(b[..|b| - 1]);
      assert b == b[..|b| - 1] + [b[|b| - 1]];
    }
  }

  /** Eight bits, most significant first, as they travel through a shift register. */
  type Byte = b: seq<bool> | |b| == 8 witness [false, false, false, false, false, false, false, false]

  /** The byte 0xFF: what an idle SPI line delivers. */
  const FILLER: Byte := [true, true, true, true, true, true, true, true]

  function ToByte(v: u8): Byte {
    ToBits(v, 8)
  }

  lemma {:induction false} OnesAreTrue(n: nat, i: nat)
    requires i < n
    ensures ToBits(Pow2(n) - 1, n)[i]
  {
    assert (Pow2(n) - 1) / 2 == Pow2(n - 1) - 1;
    if i < n - 1 {
      OnesAreTrue(n - 1, i);
    }
  }

  lemma ToByteFiller(v: u8)
    ensures ToByte(v) == FILLER <==> v == 0xFF
  {
    assert Pow2(8) == 256 by { assert Pow2(4) == 16; assert Pow2(6) == 64; }
    FromBitsToBits(v, 8);
    FromBitsToBits(0xFF, 8);
    hide ToBits, FromBits, Pow2;
    forall i | 0 <= i < 8 ensures ToBits(0xFF, 8)[i] {
      OnesAreTrue(8, i);
    }
    assert ToBits(0xFF, 8) == FILLER;
  }
}
