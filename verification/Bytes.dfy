/** Bytes, and one bit of a byte by mask and shift. Only this module computes on bit vectors. */
module Bytes {
  import opened Bits

  type Byte = b: int | 0 <= b < 256

  function Doubled(b: bv8): bv8 { b << 1 }

  function Halved(b: bv8): bv8 { b >> 1 }

  lemma DoubledByte(b: bv8)
    requires b as int < 128
    ensures Doubled(b) as int == 2 * b as int
    ensures (Doubled(b) | 1) as int == 2 * b as int + 1
  {
  }

  /** The machine byte of value n, put together bit by bit. */
  function Register(n: Byte): (b: bv8)
    ensures b as int == n
  {
    if n == 0 then 0
    else
      var high := Register(n / 2);
      DoubledByte(high);
      if n % 2 == 0 then Doubled(high) else Doubled(high) | 1
  }

  /** Shifts by n places, one place at a time. */
  function ShiftLeft(b: bv8, n: nat): bv8
    decreases n
  {
    if n == 0 then b else ShiftLeft(Doubled(b), n - 1)
  }

  function ShiftRight(b: bv8, n: nat): bv8
    decreases n
  {
    if n == 0 then b else Halved(ShiftRight(b, n - 1))
  }

  lemma HalvedByte(b: bv8)
    ensures Halved(b) as int == b as int / 2
  {
  }

  lemma LowestBit(x: bv8, b: bv8)
    requires x == b & 1
    ensures x as int == b as int % 2
  {
  }

  lemma HalvedMask(x: bv8, b: bv8, m: bv8)
    requires m < 128 && x == b & Doubled(m)
    ensures Halved(x) == Halved(b) & m
  {
  }

  lemma {:induction false} ShiftRightDivides(b: bv8, n: nat)
    ensures ShiftRight(b, n) as int == b as int / Pow2(n)
  {
    if n > 0 {
      ShiftRightDivides(b, n - 1);
      HalvedByte(ShiftRight(b, n - 1));
      DivDiv(b as int, Pow2(n - 1), 2);
    }
  }

  /** Shifting m left n times loses no bit. */
  predicate Fits(m: bv8, n: nat)
    decreases n
  {
    n == 0 || (m < 128 && Fits(Doubled(m), n - 1))
  }

  lemma {:induction false} FitsLess(m: bv8, n: nat, k: nat)
    requires Fits(m, n) && k <= n
    ensures Fits(m, k)
    decreases n
  {
    if k > 0 {
      FitsLess(Doubled(m), n - 1, k - 1);
    }
  }

  /** Masking with m shifted up, and shifting down again, is masking the shifted byte with m. */
  lemma {:induction false} ShiftedMask(b: bv8, m: bv8, n: nat, mask: bv8, x: bv8)
    requires Fits(m, n) && mask == ShiftLeft(m, n) && x == b & mask
    ensures ShiftRight(x, n) == ShiftRight(b, n) & m
    decreases n
  {
    if n > 0 {
      ShiftedMask(b, Doubled(m), n - 1, mask, x);
      HalvedMask(ShiftRight(x, n - 1), ShiftRight(b, n - 1), m);
    }
  }

  lemma OneFits(j: nat)
    requires j < 8
    ensures Fits(1, j)
  {
    assert Fits(64, 1) && Fits(16, 3) && Fits(4, 5) && Fits(1, 7);
    FitsLess(1, 7, j);
  }

  /** Mask and shift on one byte is division and remainder. */
  lemma MaskedByte(b: bv8, j: nat, mask: bv8, masked: bv8)
    requires j < 8 && mask == ShiftLeft(1, j) && masked == b & mask
    ensures ShiftRight(masked, j) as int == BitAt(b as int, j)
  {
    hide ShiftLeft, ShiftRight, Fits, Pow2;
    OneFits(j);
    ShiftedMask(b, 1, j, mask, masked);
    LowestBit(ShiftRight(masked, j), ShiftRight(b, j));
    ShiftRightDivides(b, j);
  }

  lemma PowTable()
    ensures Pow2(7) == 128 && Pow2(8) == 256
  {
    assert Pow2(4) == 16;
  }

  /** (byte & (1 << j)) >> j */
  function MaskedBit(n: Byte, j: nat): (r: Byte)
    requires j < 8
    ensures r == BitAt(n, j)
  {
    var b := Register(n);
    var mask := ShiftLeft(1, j);
    var masked := b & mask;
    MaskedByte(b, j, mask, masked);
    ShiftRight(masked, j) as int
  }
}
