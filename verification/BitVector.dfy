/** The bit-vector handler: little-endian layout of a Variant, and one bit out of the bytes. */
module BitVector {
  import opened Outcomes
  import opened Bits
  import opened Bytes
  import opened Variants

  datatype BitError = NotFixedSize | NegativeBit | BitOutOfRange

  // ---------- layout ----------

  /** Bytes an element of this kind takes in the binary encoding; None if it has no fixed size. */
  function SizeOf(kind: Kind): Option<WordSize> {
    match kind
    case Boolean => Some(1)
    case Integer(size, _) => Some(size)
    case Floating(wide) => Some(if wide then 8 else 4)
    case DateTime => None
    case NotFixed => None
  }

  /** Bits in one element. */
  function Width(kind: Kind): (w: nat)
    requires SizeOf(kind).Some?
    ensures w >= 8
  {
    8 * SizeOf(kind).value as nat
  }

  /** The low n bytes of v, least significant first. */
  function LittleEndian(v: int, n: nat): (r: seq<Byte>)
    ensures |r| == n
    decreases n
  {
    if n == 0 then [] else [v % 256] + LittleEndian(v / 256, n - 1)
  }

  /** Offset of row e among rows of n: n * e, by repeated addition. */
  function Offset(n: nat, e: nat): nat {
    if e == 0 then 0 else n + Offset(n, e - 1)
  }

  lemma {:induction false} OffsetIsProduct(n: nat, e: nat)
    ensures Offset(n, e) == n * e
  {
    if e > 0 {
      OffsetIsProduct(n, e - 1);
    }
  }

  function Concatenated(values: seq<int>, n: nat): (r: seq<Byte>)
    ensures |r| == Offset(n, |values|)
  {
    if values == [] then [] else LittleEndian(values[0], n) + Concatenated(values[1..], n)
  }

  /** The bytes of the binary encoding. That the encoder refuses Null, which carries no typed value,
      is an assumption about the library. */
  function Layout(v: Variant): Result<seq<Byte>, BitError> {
    if v.Null? || SizeOf(v.kind).None? then Err(NotFixedSize)
    else Ok(Concatenated(v.Elements(), SizeOf(v.kind).value))
  }

  class Buffer {
    var data: seq<Byte>

    constructor ()
      ensures data == []
    {
      data := [];
    }

    method WriteWord(v: int, n: nat)
      modifies this
      ensures data == old(data) + LittleEndian(v, n)
    {
      var rest := v;
      for i := 0 to n
        invariant data + LittleEndian(rest, n - i) == old(data) + LittleEndian(v, n)
      {
        var before := data;
        data := data + [rest % 256];
        assert before + LittleEndian(rest, n - i) == data + LittleEndian(rest / 256, n - i - 1);
        rest := rest / 256;
      }
      assert data + LittleEndian(rest, 0) == data;
    }

    method WriteWords(values: seq<int>, n: nat)
      modifies this
      ensures data == old(data) + Concatenated(values, n)
    {
      for i := 0 to |values|
        invariant data + Concatenated(values[i..], n) == old(data) + Concatenated(values, n)
      {
        var before, word, rest := data, LittleEndian(values[i], n), Concatenated(values[i + 1..], n);
        assert values[i..][1..] == values[i + 1..];
        assert before + (word + rest) == before + word + rest;
        WriteWord(values[i], n);
      }
      assert data + Concatenated(values[|values|..], n) == data;
    }

    /** binary.Write with little-endian order: element after element, or nothing at all. */
    method WriteVariant(v: Variant) returns (ok: bool)
      modifies this
      ensures ok == Layout(v).Ok?
      ensures data == if ok then old(data) + Layout(v).value else old(data)
    {
      ok := !v.Null? && SizeOf(v.kind).Some?;
      if ok {
        WriteWords(v.Elements(), SizeOf(v.kind).value);
      }
    }
  }

  method VariantToByteArray(v: Variant) returns (r: Result<seq<Byte>, BitError>)
    ensures r == Layout(v)
    ensures r.Ok? <==> !v.Null? && !v.kind.DateTime? && !v.kind.NotFixed?
    ensures r.Ok? ==> |r.value| == |v.Elements()| * match v.kind
              case Boolean => 1
              case Integer(size, _) => size
              case Floating(wide) => if wide then 8 else 4
              case _ => 0
  {
    var buf := new Buffer();
    var ok := buf.WriteVariant(v);
    if !ok {
      return Err(NotFixedSize);
    }
    assert [] + Layout(v).value == Layout(v).value;
    OffsetIsProduct(SizeOf(v.kind).value, |v.Elements()|);
    r := Ok(buf.data);
  }

  // ---------- extraction ----------

  function ExtractBit(bytes: seq<Byte>, bit: int): Result<Byte, BitError> {
    if bit < 0 then Err(NegativeBit)
    else
      var byteIdx, bitIdx := bit / 8, bit % 8;
      if byteIdx > |bytes| - 1 then Err(BitOutOfRange)
      else Ok(MaskedBit(bytes[byteIdx], bitIdx))
  }

  function FloatValue(v: Variant, bit: int): Result<Float64, BitError> {
    match Layout(v)
    case Err(e) => Err(e)
    case Ok(bytes) =>
      match ExtractBit(bytes, bit)
      case Err(e) => Err(e)
      case Ok(b) => Ok(FromInt(b))
  }

  // ---------- bytes against arithmetic ----------

  lemma ShiftByByte(v: int, i: nat)
    requires i > 0
    ensures v / 256 / Pow2(8 * (i - 1)) == v / Pow2(8 * i)
  {
    PowTable();
    Pow2Add(8, 8 * (i - 1));
    DivDiv(v, 256, Pow2(8 * (i - 1)));
  }

  lemma {:induction false} LittleEndianByte(v: int, n: nat, i: nat)
    requires i < n
    ensures LittleEndian(v, n)[i] == v / Pow2(8 * i) % 256
    decreases n
  {
    if i == 0 {
      assert v / Pow2(8 * i) == v by {
        assert Pow2(8 * i) == Pow2(0) == 1;
      }
    } else {
      LittleEndianByte(v / 256, n - 1, i - 1);
      ShiftByByte(v, i);
      assert LittleEndian(v, n)[i] == LittleEndian(v / 256, n - 1)[i - 1];
    }
  }

  lemma {:induction false} ConcatenatedByte(values: seq<int>, n: nat, e: nat, i: nat)
    requires e < |values| && i < n
    ensures Offset(n, e) + i < Offset(n, |values|)
    ensures Concatenated(values, n)[Offset(n, e) + i] == LittleEndian(values[e], n)[i]
  {
    var head, tail := LittleEndian(values[0], n), Concatenated(values[1..], n);
    assert Concatenated(values, n) == head + tail;
    if e == 0 {
      assert (head + tail)[i] == head[i];
    } else {
      ConcatenatedByte(values[1..], n, e - 1, i);
      var t := Offset(n, e - 1) + i;
      assert (head + tail)[n + t] == tail[t];
    }
  }

  /** Bit j of byte i is bit 8 * i + j of the word. */
  lemma WordBit(x: int, n: nat, i: nat, j: nat)
    requires i < n && j < 8
    ensures MaskedBit(LittleEndian(x, n)[i], j) == BitAt(x % Pow2(8 * n), 8 * i + j)
  {
    LittleEndianByte(x, n, i);
    PowTable();
    BitAtMod(x / Pow2(8 * i), 8, j);
    BitAtShift(x, 8 * i, j);
    BitAtMod(x, 8 * n, 8 * i + j);
  }

  lemma ExtractBitAt(bytes: seq<Byte>, byteIdx: nat, bitIdx: nat)
    requires byteIdx < |bytes| && bitIdx < 8
    ensures ExtractBit(bytes, 8 * byteIdx + bitIdx) == Ok(MaskedBit(bytes[byteIdx], bitIdx))
  {
    assert (8 * byteIdx + bitIdx) / 8 == byteIdx && (8 * byteIdx + bitIdx) % 8 == bitIdx;
  }

  /** Bit 8 * i + j of word e, read from the bytes of all words. */
  lemma ExtractBitInWord(values: seq<int>, n: nat, e: nat, i: nat, j: nat)
    requires e < |values| && i < n && j < 8
    ensures ExtractBit(Concatenated(values, n), 8 * (Offset(n, e) + i) + j) ==
            Ok(MaskedBit(LittleEndian(values[e], n)[i], j))
  {
    hide MaskedBit, LittleEndian, Concatenated, Offset;
    ConcatenatedByte(values, n, e, i);
    ExtractBitAt(Concatenated(values, n), Offset(n, e) + i, j);
  }

  // ---------- what the handler exports ----------

  /** Number of bits a handler can address in v. */
  function BitLength(v: Variant): nat {
    if v.Null? || SizeOf(v.kind).None? then 0 else Width(v.kind) * |v.Elements()|
  }

  /** The meaning of bit `bit` without bytes: bit k of the two's-complement form of one element. */
  function ArithmeticBit(v: Variant, bit: nat): int
    requires bit < BitLength(v)
  {
    var w := Width(v.kind);
    BitInBounds(w, bit, |v.Elements()|);
    v.Elements()[bit / w] % Pow2(w) / Pow2(bit % w) % 2
  }

  lemma BitInBounds(w: nat, bit: nat, count: nat)
    requires w > 0 && bit < w * count
    ensures bit / w < count
  {
    MulMonotone(w, count, bit / w);
  }

  lemma MulMonotone(w: nat, a: int, b: int)
    ensures a <= b ==> w * a <= w * b
  {
    if a <= b {
      assert w * (b - a) >= 0;
    }
  }

  lemma FloatValueAt(v: Variant, e: nat, i: nat, j: nat)
    requires !v.Null? && SizeOf(v.kind).Some? && e < |v.Elements()| && i < SizeOf(v.kind).value && j < 8
    ensures FloatValue(v, 8 * (Offset(SizeOf(v.kind).value, e) + i) + j) ==
            Ok(FromInt(BitAt(v.Elements()[e] % Pow2(Width(v.kind)), 8 * i + j)))
  {
    hide MaskedBit, LittleEndian, Concatenated, Pow2, InRange, Offset;
    ExtractBitInWord(v.Elements(), SizeOf(v.kind).value, e, i, j);
    WordBit(v.Elements()[e], SizeOf(v.kind).value, i, j);
  }

  lemma WordOffset(kind: Kind, e: nat)
    requires SizeOf(kind).Some?
    ensures Width(kind) * e == 8 * Offset(SizeOf(kind).value, e)
  {
    var n: nat := SizeOf(kind).value;
    OffsetIsProduct(n, e);
    assert 8 * n * e == 8 * (n * e);
  }

  /** Bit k of element e, read through the bytes. */
  lemma ElementBit(v: Variant, e: nat, k: nat)
    requires !v.Null? && SizeOf(v.kind).Some? && e < |v.Elements()| && k < Width(v.kind)
    ensures FloatValue(v, Width(v.kind) * e + k) == Ok(FromInt(BitAt(v.Elements()[e] % Pow2(Width(v.kind)), k)))
  {
    hide FloatValue, Offset, Pow2, BitAt;
    WordOffset(v.kind, e);
    FloatValueAt(v, e, k / 8, k % 8);
    assert 8 * (Offset(SizeOf(v.kind).value, e) + k / 8) + k % 8 == Width(v.kind) * e + k;
    assert 8 * (k / 8) + k % 8 == k;
  }

  lemma BitErrors(v: Variant, bit: int)
    ensures (v.Null? || SizeOf(v.kind).None?) ==> FloatValue(v, bit) == Err(NotFixedSize)
    ensures !v.Null? && SizeOf(v.kind).Some? && bit < 0 ==> FloatValue(v, bit) == Err(NegativeBit)
    ensures !v.Null? && SizeOf(v.kind).Some? && bit >= BitLength(v) ==> FloatValue(v, bit) == Err(BitOutOfRange)
  {
    if !v.Null? && SizeOf(v.kind).Some? {
      WordOffset(v.kind, |v.Elements()|);
    }
  }

  lemma BitInRange(v: Variant, bit: nat)
    requires bit < BitLength(v)
    ensures FloatValue(v, bit) == Ok(FromInt(ArithmeticBit(v, bit)))
  {
    hide FloatValue, Pow2;
    var w := Width(v.kind);
    BitInBounds(w, bit, |v.Elements()|);
    assert w * (bit / w) + bit % w == bit;
    ElementBit(v, bit / w, bit % w);
  }

  /** On every value and every bit number the handler reports the arithmetic bit, or the error. */
  lemma {:induction false} FloatValueIsArithmeticBit(v: Variant, bit: int)
    ensures FloatValue(v, bit) ==
      if v.Null? || SizeOf(v.kind).None? then Err(NotFixedSize)
      else if bit < 0 then Err(NegativeBit)
      else if bit >= BitLength(v) then Err(BitOutOfRange)
      else Ok(FromInt(ArithmeticBit(v, bit)))
  {
    BitErrors(v, bit);
    if 0 <= bit < BitLength(v) {
      BitInRange(v, bit);
    }
  }

  /** For a scalar: bit k of (v mod 2^w), and an error exactly outside 0..w-1, with the width w that
      its type has. */
  lemma {:induction false} ScalarBit(kind: Kind, value: int, bit: int)
    requires InRange(kind, value)
    ensures var w: nat := match kind
              case Boolean => 8
              case Integer(size, _) => 8 * size
              case Floating(wide) => if wide then 64 else 32
              case _ => 0;
            FloatValue(Scalar(kind, value), bit) ==
            if w == 0 then Err(NotFixedSize)
            else if bit < 0 then Err(NegativeBit)
            else if bit >= w then Err(BitOutOfRange)
            else Ok(FromInt(value % Pow2(w) / Pow2(bit) % 2))
  {
    hide FloatValue, Pow2;
    FloatValueIsArithmeticBit(Scalar(kind, value), bit);
    if SizeOf(kind).Some? && 0 <= bit < Width(kind) {
      DivModUnique(bit, Width(kind), 0, bit);
    }
  }

  /** For an array of integers of n bytes: bit 8 * n * e + j of the whole is bit j of element e. */
  lemma {:induction false} ArrayBit(size: WordSize, signed: bool, xs: seq<int>, e: nat, j: nat)
    requires forall x | x in xs :: InRange(Integer(size, signed), x)
    requires e < |xs| && j < 8 * size
    ensures FloatValue(Array(Integer(size, signed), xs), 8 * size * e + j) ==
            Ok(FromInt(xs[e] % Pow2(8 * size) / Pow2(j) % 2))
  {
    hide FloatValue, Pow2;
    ElementBit(Array(Integer(size, signed), xs), e, j);
  }

  /** Bit b of a sequence of w-bit words, the lowest bit of the first word being number 0. */
  predicate IsBitOfWords(xs: seq<int>, w: nat, b: int, x: int)
    requires w > 0
  {
    0 <= b && b / w < |xs| && x == xs[b / w] / Pow2(b % w) % 2
  }

  /** The bits that a value has, type by type. */
  predicate IsBitOf(v: Variant, b: int, x: int) {
    match v
    case Scalar(Boolean, n) => IsBitOfWords([n], 8, b, x)
    case Scalar(Integer(size, _), n) => IsBitOfWords([n], 8 * size, b, x)
    case Scalar(Floating(wide), n) => IsBitOfWords([n], if wide then 64 else 32, b, x)
    case Array(Boolean, ns) => IsBitOfWords(ns, 8, b, x)
    case Array(Integer(size, _), ns) => IsBitOfWords(ns, 8 * size, b, x)
    case Array(Floating(wide), ns) => IsBitOfWords(ns, if wide then 64 else 32, b, x)
    case _ => false
  }

  /** The handler exports the bits of a value, all of them and nothing else; and what it reports where
      there is no such bit. */
  lemma {:induction false} ExportsBitsExactly(v: Variant, b: int, x: Float64)
    ensures FloatValue(v, b) == Ok(x) <==> x.FromInt? && IsBitOf(v, b, x.n)
    ensures FloatValue(v, b) == Err(NotFixedSize) <==> v.Null? || v.kind.DateTime? || v.kind.NotFixed?
    ensures FloatValue(v, b) == Err(NegativeBit) <==> !v.Null? && !v.kind.DateTime? && !v.kind.NotFixed? && b < 0
  {
    hide FloatValue, Pow2;
    FloatValueIsArithmeticBit(v, b);
    if b >= 0 && !v.Null? && SizeOf(v.kind).Some? {
      var w := Width(v.kind);
      WordOfBit(w, b, |v.Elements()|);
      if b < BitLength(v) {
        BitAtMod(v.Elements()[b / w], w, b % w);
      }
    }
  }

  lemma WordOfBit(w: nat, bit: nat, count: nat)
    requires w > 0
    ensures bit / w < count <==> bit < w * count
  {
    MulMonotone(w, count, bit / w);
    MulMonotone(w, bit / w + 1, count);
  }

  /** Some value reaches a handler's bit if and only if the bit is not negative. */
  lemma BitReachable(bit: int)
    ensures (exists v: Variant :: FloatValue(v, bit).Ok?) <==> bit >= 0
  {
    if bit >= 0 {
      var v: RawVariant := Array(Boolean, seq(bit / 8 + 1, _ => 0));
      assert v.WellTyped();
      FloatValueIsArithmeticBit(v, bit);
      assert FloatValue(v, bit).Ok?;
    }
    forall v: Variant | FloatValue(v, bit).Ok? ensures bit >= 0 {
      FloatValueIsArithmeticBit(v, bit);
    }
  }

  // ---------- reconstruction ----------

  /** The number a bit handler exports for bit k of v, 0 where it reports an error. */
  function ExportedBit(v: Variant, k: int): int {
    match FloatValue(v, k)
    case Ok(FromInt(n)) => n
    case _ => 0
  }

  /** What the handlers for all bits of element e export. */
  function ExportedBits(v: Variant, e: nat): (r: seq<int>)
    requires !v.Null? && SizeOf(v.kind).Some?
    ensures |r| == Width(v.kind)
  {
    seq(Width(v.kind), k requires 0 <= k => ExportedBit(v, Width(v.kind) * e + k))
  }

  lemma ExportedBitOfElement(v: Variant, e: nat, k: nat)
    requires !v.Null? && SizeOf(v.kind).Some? && e < |v.Elements()| && k < Width(v.kind)
    ensures ExportedBit(v, Width(v.kind) * e + k) == BitAt(v.Elements()[e], k)
  {
    hide FloatValue, Pow2, BitAt;
    ElementBit(v, e, k);
    BitAtMod(v.Elements()[e], Width(v.kind), k);
  }

  lemma ExportedBitsOfElement(v: Variant, e: nat)
    requires !v.Null? && SizeOf(v.kind).Some? && e < |v.Elements()|
    ensures ExportedBits(v, e) == BitsOf(v.Elements()[e], Width(v.kind))
  {
    forall k: nat | k < Width(v.kind)
      ensures ExportedBit(v, Width(v.kind) * e + k) == BitAt(v.Elements()[e], k)
    {
      ExportedBitOfElement(v, e, k);
    }
  }

  predicate IsSigned(kind: Kind) {
    kind.Integer? && kind.signed
  }

  /** Summing what the bit handlers export for one element gives that element back:
      plain weights for unsigned, a negative weight on the top bit for signed. */
  lemma Reconstruction(v: Variant, e: nat)
    requires !v.Null? && SizeOf(v.kind).Some? && e < |v.Elements()|
    ensures FromBits(ExportedBits(v, e), IsSigned(v.kind)) == v.Elements()[e]
  {
    hide ExportedBits, WeightedSum;
    var x, w := v.Elements()[e], Width(v.kind);
    assert InRange(v.kind, x);
    ExportedBitsOfElement(v, e);
    PowMonotone(1, w);
    TwosComplement(x, w, IsSigned(v.kind));
  }

  /** Layout followed by bit extraction loses nothing: two values of one sized type and one shape
      whose handlers agree on every bit are the same value. */
  lemma NothingLost(v: Variant, u: Variant)
    requires !v.Null? && !u.Null? && v.Scalar? == u.Scalar? && v.kind == u.kind && SizeOf(v.kind).Some?
    requires |v.Elements()| == |u.Elements()|
    requires forall k: nat :: ExportedBit(v, k) == ExportedBit(u, k)
    ensures v == u
  {
    forall e | 0 <= e < |v.Elements()| ensures v.Elements()[e] == u.Elements()[e] {
      Reconstruction(v, e);
      Reconstruction(u, e);
      SameExports(v, u, e);
    }
    assert v.Elements() == u.Elements();
  }

  lemma SameExports(v: Variant, u: Variant, e: nat)
    requires !v.Null? && !u.Null? && v.kind == u.kind && SizeOf(v.kind).Some?
    requires forall k: nat :: ExportedBit(v, k) == ExportedBit(u, k)
    ensures ExportedBits(v, e) == ExportedBits(u, e)
  {
    var w := Width(v.kind);
    forall k | 0 <= k < w ensures ExportedBits(v, e)[k] == ExportedBits(u, e)[k] {
      var p: nat := w * e + k;
      assert ExportedBit(v, p) == ExportedBit(u, p);
    }
  }
}
