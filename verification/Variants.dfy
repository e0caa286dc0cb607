/** The values an OPC UA server reports, as far as the two message handlers look at them. */
module Variants {
  import opened Bits

  type WordSize = n: nat | n == 1 || n == 2 || n == 4 || n == 8 witness 1

  /** Element types, sorted by what the handlers do with them. NotFixed stands for the types
      that are neither numeric nor of a fixed size: strings, identifiers, structures. */
  datatype Kind =
    | Boolean
    | Integer(size: WordSize, signed: bool)
    | Floating(wide: bool)
    | DateTime
    | NotFixed

  /** A value is carried as one integer: 0 or 1 for a Boolean, the number itself for an Integer,
      the IEEE 754 bit pattern for a Floating, seconds since 1970 for a DateTime. */
  predicate InRange(kind: Kind, value: int) {
    match kind
    case Boolean => 0 <= value < 2
    case Integer(size, signed) =>
      if signed then 0 - Pow2(8 * size - 1) <= value < Pow2(8 * size - 1)
      else 0 <= value < Pow2(8 * size)
    case Floating(wide) => 0 <= value < Pow2(if wide then 64 else 32)
    case DateTime => true
    case NotFixed => true
  }

  datatype RawVariant =
    | Null
    | Scalar(kind: Kind, value: int)
    | Array(kind: Kind, values: seq<int>)
  {
    predicate WellTyped() {
      match this
      case Null => true
      case Scalar(kind, value) => InRange(kind, value)
      case Array(kind, values) => forall v | v in values :: InRange(kind, v)
    }

    function Elements(): seq<int> {
      match this
      case Null => []
      case Scalar(_, value) => [value]
      case Array(_, values) => values
    }
  }

  type Variant = v: RawVariant | v.WellTyped() witness Null

  /** A float64, kept as the exact operand of the conversion that made it. */
  datatype Float64 = FromInt(n: int) | FromFloat32(bits: int) | FromFloat64(bits: int)
}
