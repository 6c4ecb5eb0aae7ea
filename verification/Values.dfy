/** Column types and dynamically typed values. Text is its UTF-8 bytes, a real its 64 bits. */
module Values {
  import opened Bytes

  datatype Type = TextType | IntegerType | RealType | BlobType | BooleanType
  const TWO_63 := 0x8000_0000_0000_0000
  const TWO_64 := 0x1_0000_0000_0000_0000

  type Int64 = x: int | -TWO_63 <= x < TWO_63
  type Word64 = x: int | 0 <= x < TWO_64

  datatype Value =
    | Null
    | Text(chars: seq<Byte>)
    | Integer(i: Int64)
    | Real(bits: Word64)
    | Blob(bytes: seq<Byte>)
    | Boolean(b: bool)

  /** The 64-bit two's complement of an integer. */
  function Unsigned(i: Int64): Word64 {
    if i < 0 then i + TWO_64 else i
  }

  function Signed(n: Word64): (i: Int64)
    ensures Unsigned(i) == n
  {
    if n < TWO_63 then n else n - TWO_64
  }

  /** Reals by sign and magnitude bits: below zero the larger magnitude is the smaller number. */
  function RealRank(bits: Word64): int {
    if bits < TWO_63 then bits else TWO_63 - bits - 1
  }

  /** The order of two values of one indexable type. */
  predicate ValueLess(v: Value, w: Value) {
    match (v, w)
    case (Integer(a), Integer(b)) => a < b
    case (Real(a), Real(b)) => RealRank(a) < RealRank(b)
    case (Text(a), Text(b)) => LexLess(a, b)
    case _ => false
  }
}
