/** The types and conversions of C that matter to the modelled programs. */
module CTypes {

  /** An unsigned char. */
  type Byte = b: int | 0 <= b < 256

  /** One past the largest int. */
  const INT_END: int := 0x8000_0000

  function Min(a: int, b: int): (r: int)
    ensures r <= a && r <= b && (r == a || r == b)
  {
    if a < b then a else b
  }

  /** Storing an int in a signed char. */
  function Narrow(x: int): (r: int)
    ensures -128 <= r <= 127 && (-128 <= x <= 127 ==> r == x)
  {
    (x + 128) % 256 - 128
  }

  /** A difference computed in a size_t of 64 bits. */
  function SizeT(x: int): (r: nat)
    ensures 0 <= x < 0x1_0000_0000_0000_0000 ==> r == x
  {
    x % 0x1_0000_0000_0000_0000
  }
}
