/** The single-bit value type `Bit`: an immutable boolean together with its cached
    0/1 integer, numeric views, boolean operators and value equality. */
module Bits {
  import opened Primitives

  /** The struct's two fields: the truth value and the cached integer. */
  datatype BitRep = BitRep(value: bool, iValue: int)

  /** Every `Bit` is built by the private constructor, which sets the cached
      integer to 1 exactly when the value is true; the subset type keeps that. */
  type Bit = b: BitRep | b.iValue == (if b.value then 1 else 0) witness BitRep(false, 0)

  /** The private constructor `Bit(bool)`. */
  function Make(value: bool): (b: Bit)
    ensures b.value == value
  {
    BitRep(value, if value then 1 else 0)
  }

  const Zero: Bit := Make(false)
  const One: Bit := Make(true)

  // ---- implicit conversions out of Bit: each reads the value; its contract
  //      ties it to the cached integer ----

  function ToBool(b: Bit): (r: bool)
    ensures r <==> b.iValue == 1
  {
    b.value
  }

  function ToByte(b: Bit): (r: byte)
    ensures r as int == b.iValue
  {
    if b.value then 1 else 0
  }

  function ToSByte(b: Bit): (r: sbyte)
    ensures r as int == b.iValue
  {
    if b.value then 1 else 0
  }

  function ToShort(b: Bit): (r: short)
    ensures r as int == b.iValue
  {
    if b.value then 1 else 0
  }

  function ToUShort(b: Bit): (r: ushort)
    ensures r as int == b.iValue
  {
    if b.value then 1 else 0
  }

  function ToInt(b: Bit): (r: int32)
    ensures r as int == b.iValue
  {
    if b.value then 1 else 0
  }

  function ToUInt(b: Bit): (r: uint32)
    ensures r as int == b.iValue
  {
    if b.value then 1 else 0
  }

  function ToLong(b: Bit): (r: long)
    ensures r as int == b.iValue
  {
    if b.value then 1 else 0
  }

  function ToULong(b: Bit): (r: ulong)
    ensures r as int == b.iValue
  {
    if b.value then 1 else 0
  }

  /** Every numeric view is the cached integer, which is 1 exactly for a set bit. */
  lemma NumericViewsAgree(b: Bit)
    ensures ToInt(b) as int == b.iValue
    ensures ToByte(b) as int == ToSByte(b) as int == ToShort(b) as int == ToUShort(b) as int
            == ToInt(b) as int == ToUInt(b) as int == ToLong(b) as int == ToULong(b) as int
    ensures ToInt(b) == 1 <==> ToBool(b)
    ensures ToInt(b) == 0 <==> !ToBool(b)
  {
  }

  // ---- implicit conversions into Bit ----

  function FromBool(value: bool): (b: Bit)
    ensures ToBool(b) == value
  {
    Make(value)
  }

  /** `int` to `Bit`: 0 and 1 convert, any other value throws ArgumentException. */
  function FromInt(value: int32): (r: Result<Bit>)
    ensures r.Ok? <==> value == 0 || value == 1
    ensures r.Ok? ==> ToInt(r.value) == value
    ensures r.Err? ==> r.error == ArgumentException
  {
    if value == 0 then Ok(FromBool(false))
    else if value == 1 then Ok(FromBool(true))
    else Err(ArgumentException)
  }

  /** Bit -> int -> Bit gives the bit back; the cached integer makes the
      representation equal, not just the value. */
  lemma IntRoundTrip(b: Bit)
    ensures FromInt(ToInt(b)) == Ok(b)
  {
  }

  // ---- operators ----

  function And(left: Bit, right: Bit): (r: Bit)
    ensures ToInt(r) as int == ToInt(left) as int * ToInt(right) as int
  {
    FromBool(left.value && right.value)
  }

  function Or(left: Bit, right: Bit): (r: Bit)
    ensures ToInt(r) as int == ToInt(left) as int + ToInt(right) as int - ToInt(left) as int * ToInt(right) as int
  {
    FromBool(left.value || right.value)
  }

  function Xor(left: Bit, right: Bit): (r: Bit)
    ensures ToInt(r) as int == (ToInt(left) as int + ToInt(right) as int) % 2
  {
    FromBool(left.value != right.value)
  }

  /** `~`: the complement. */
  function Not(b: Bit): (r: Bit)
    ensures ToInt(r) as int == 1 - ToInt(b) as int
  {
    FromBool(!b.value)
  }

  lemma NotInvolutive(b: Bit)
    ensures Not(Not(b)) == b
    ensures Not(b) != b
  {
  }

  /** `==`: compares the boolean values only; because the cached integer follows
      the value, this is equality of the whole struct. */
  function Eq(left: Bit, right: Bit): (r: bool)
    ensures r <==> left == right
  {
    left.value == right.value
  }

  /** `!=`, written independently of `==` in the source. */
  function NotEq(left: Bit, right: Bit): (r: bool)
    ensures r <==> left != right
    ensures r == !Eq(left, right)
  {
    left.value != right.value
  }

  /** `Equals(object)`: `obj` is `None` when it is null or not a `Bit`. */
  function Equals(b: Bit, obj: Option<Bit>): (r: bool)
    ensures r <==> obj == Some(b)
  {
    obj.Some? && b.value == obj.value.value
  }

  /** `GetHashCode`: the hash of the boolean value; `boolHash` stands for the
      library's `bool.GetHashCode`. */
  function HashCode(b: Bit, boolHash: bool -> bv32): bv32
  {
    boolHash(b.value)
  }

  lemma EqualBitsEqualHashes(a: Bit, b: Bit, boolHash: bool -> bv32)
    requires Eq(a, b)
    ensures HashCode(a, boolHash) == HashCode(b, boolHash)
  {
  }

  /** `ToString`: the decimal rendering of the cached integer. */
  function ToString(b: Bit): (s: string)
    ensures s == (if b.value then "1" else "0")
  {
    DecimalString(b.iValue)
  }
}
