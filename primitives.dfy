/** The C# built-in integer types the bit library converts to and from, and the
    failure wrapper used for the exceptions it throws. */
module Primitives {

  newtype byte = x: int | 0 <= x < 0x100
  newtype sbyte = x: int | -0x80 <= x < 0x80
  newtype short = x: int | -0x8000 <= x < 0x8000
  newtype ushort = x: int | 0 <= x < 0x1_0000
  newtype int32 = x: int | -0x8000_0000 <= x < 0x8000_0000
  newtype uint32 = x: int | 0 <= x < 0x1_0000_0000
  newtype long = x: int | -0x8000_0000_0000_0000 <= x < 0x8000_0000_0000_0000
  newtype ulong = x: int | 0 <= x < 0x1_0000_0000_0000_0000

  const INT32_MAX: int := 0x7FFF_FFFF

  /** The exceptions the modelled code raises on its own account. */
  datatype Error = ArgumentException

  datatype Result<T> = Ok(value: T) | Err(error: Error)

  /** A reference that is either absent (null, or of another runtime type) or present. */
  datatype Option<T> = None | Some(value: T)

  /** `Math.Max` on two integers. */
  function Max(a: int, b: int): (m: int)
    ensures m >= a && m >= b && (m == a || m == b)
  {
    if a >= b then a else b
  }

  /** 2^n, standing for the double-valued `Math.Pow(2, n)` (exact for the small
      exponents it is used with). */
  function Pow2(n: nat): (r: nat)
    ensures r >= 1
  {
    if n == 0 then 1 else 2 * Pow2(n - 1)
  }

  /** Decimal rendering of an integer, as `int.ToString()` writes it with the
      invariant culture: an optional minus sign followed by the digits. */
  function DecimalString(n: int): (s: string)
  {
    if n < 0 then "-" + NaturalDigits(-n) else NaturalDigits(n)
  }

  function NaturalDigits(n: nat): (s: string)
    ensures |s| >= 1
    ensures forall k :: 0 <= k < |s| ==> '0' <= s[k] <= '9'
  {
    if n < 10 then [DigitChar(n)] else NaturalDigits(n / 10) + [DigitChar(n % 10)]
  }

  function DigitChar(d: nat): (c: char)
    requires d < 10
    ensures '0' <= c <= '9'
  {
    "0123456789"[d]
  }
}
