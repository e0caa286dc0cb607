/** Gauges, and the handlers that own one each. */
module Gauges {
  import opened Outcomes
  import opened Variants
  import BitVector
  import ValueConversion

  class Gauge {
    var value: Float64

    constructor ()
      ensures value == FromInt(0)
    {
      value := FromInt(0);
    }

    method Set(x: Float64)
      modifies this
      ensures value == x
    {
      value := x;
    }
  }

  datatype HandleError = BitFailure(bitError: BitVector.BitError) | ValueFailure(valueError: ValueConversion.ValueError)

  /** What a handler exports for v: one bit, or the value. */
  function Converted(bit: Option<int>, v: Variant): Result<Float64, HandleError> {
    match bit
    case Some(b) =>
      (match BitVector.FloatValue(v, b)
       case Ok(x) => Ok(x)
       case Err(e) => Err(BitFailure(e)))
    case None =>
      (match ValueConversion.FloatValue(v)
       case Ok(x) => Ok(x)
       case Err(e) => Err(ValueFailure(e)))
  }

  /** What a gauge is meant to show for a value: with a bit, that bit of the value; without one, the
      number that the value stands for, which only scalars of a boolean, numeric or time type have. */
  predicate Exports(bit: Option<int>, v: Variant, x: Float64) {
    match bit
    case Some(b) => x.FromInt? && BitVector.IsBitOf(v, b, x.n)
    case None =>
      match v
      case Scalar(Boolean, n) => x == FromInt(n)
      case Scalar(Integer(_, _), n) => x == FromInt(n)
      case Scalar(Floating(wide), n) => x == if wide then FromFloat64(n) else FromFloat32(n)
      case Scalar(DateTime, n) => x == FromInt(n)
      case _ => false
  }

  /** Conversion does just that. */
  lemma {:induction false} ConvertedIsExport(bit: Option<int>, v: Variant, x: Float64)
    ensures Converted(bit, v) == Ok(x) <==> Exports(bit, v, x)
  {
    hide BitVector.FloatValue, BitVector.IsBitOf;
    match bit {
      case Some(b) =>
        BitVector.ExportsBitsExactly(v, b, x);
      case None =>
        ValueConversion.ConvertedExactly(v);
        if v.Scalar? {
          assert InRange(v.kind, v.value);
        }
    }
  }

  datatype Handler =
    | BitVectorHandler(gauge: Gauge, extractBit: int)
    | OpcValueHandler(gauge: Gauge)
  {
    function Bit(): Option<int> {
      match this
      case BitVectorHandler(_, bit) => Some(bit)
      case OpcValueHandler(_) => None
    }

    function FloatValue(v: Variant): Result<Float64, HandleError> {
      Converted(Bit(), v)
    }

    method Handle(v: Variant) returns (err: Option<HandleError>)
      modifies gauge
      ensures FloatValue(v).Ok? ==> err == None && gauge.value == FloatValue(v).value
      ensures FloatValue(v).Err? ==> err == Some(FloatValue(v).error) && gauge.value == old(gauge.value)
      ensures err == None ==> Exports(Bit(), v, gauge.value)
      ensures err != None ==> gauge.value == old(gauge.value) && forall x :: !Exports(Bit(), v, x)
    {
      hide Converted, Exports;
      forall x ensures FloatValue(v) == Ok(x) <==> Exports(Bit(), v, x) {
        ConvertedIsExport(Bit(), v, x);
      }
      match FloatValue(v)
      case Err(e) =>
        err := Some(e);
      case Ok(x) =>
        gauge.Set(x);
        err := None;
    }
  }
}
