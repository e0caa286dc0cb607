/** The generic handler: the number a Variant stands for. */
module ValueConversion {
  import opened Outcomes
  import opened Bits
  import opened Variants
  import BitVector

  datatype ValueError = NullValue | NotABool | NotATime | UnsupportedType

  /** Dispatch on the type identifier, which for an array names the element type. */
  function FloatValue(v: Variant): Result<Float64, ValueError> {
    if v.Null? then Err(NullValue)
    else match v.kind
      case Boolean => BoolToFloat(v)
      case DateTime => TimeToFloat(v)
      case _ => CoerceToFloat64(v)
  }

  function BoolToFloat(v: Variant): Result<Float64, ValueError>
    requires !v.Null? && v.kind.Boolean?
  {
    if v.Scalar? then Ok(if v.value == 1 then FromInt(1) else FromInt(0)) else Err(NotABool)
  }

  function TimeToFloat(v: Variant): Result<Float64, ValueError>
    requires !v.Null? && v.kind.DateTime?
  {
    if v.Scalar? then Ok(FromInt(v.value)) else Err(NotATime)
  }

  function CoerceToFloat64(v: Variant): Result<Float64, ValueError>
    requires !v.Null?
  {
    if v.Array? then Err(UnsupportedType)
    else match v.kind
      case Floating(wide) => Ok(if wide then FromFloat64(v.value) else FromFloat32(v.value))
      case Integer(_, _) => Ok(FromInt(v.value))
      case _ => Err(UnsupportedType)
  }

  /** How a number read out of the bits of a value of this kind is turned into a float. */
  function Decode(kind: Kind, n: int): Float64 {
    match kind
    case Floating(wide) => if wide then FromFloat64(n) else FromFloat32(n)
    case _ => FromInt(n)
  }

  /** Converted are exactly the scalars of a boolean, numeric or time type, each to its number. */
  lemma ConvertedExactly(v: Variant)
    ensures FloatValue(v).Ok? <==> v.Scalar? && !v.kind.NotFixed?
    ensures FloatValue(v).Ok? ==> FloatValue(v) == Ok(Decode(v.kind, v.value))
  {
    if v.Scalar? {
      assert InRange(v.kind, v.value);
    }
  }

  /** The two handlers agree: on every scalar that both accept, the value handler exports the
      number spelled by the exports of the bit handlers for its bits 0 .. w-1. */
  lemma ValueFromBits(v: Variant)
    requires v.Scalar? && BitVector.SizeOf(v.kind).Some?
    ensures FloatValue(v) ==
            Ok(Decode(v.kind, FromBits(BitVector.ExportedBits(v, 0), BitVector.IsSigned(v.kind))))
  {
    BitVector.Reconstruction(v, 0);
    assert InRange(v.kind, v.value);
  }
}
