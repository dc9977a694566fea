/** Machine-level values shared by every module: bytes and words. */
module Machine {

  /** A C `unsigned char`. A plain `char` is also kept as its byte: the sources only compare chars for equality. */
  type Byte = x: int | 0 <= x < 256

  type Word16 = x: int | 0 <= x < 0x1_0000

  type Word32 = x: int | 0 <= x < 0x1_0000_0000

  const TWO32: int := 0x1_0000_0000
  const TWO31: int := 0x8000_0000

  /** Conversion to `uint32_t`: reduction modulo 2^32. */
  function U32(x: int): (r: nat)
    ensures r < TWO32
    ensures 0 <= x < TWO32 ==> r == x
  {
    x % TWO32
  }

  /** Conversion to `int`: two's complement reading of the low 32 bits. */
  function I32(x: int): (r: int)
    ensures -TWO31 <= r < TWO31
    ensures U32(r) == U32(x)
    ensures -TWO31 <= x < TWO31 ==> r == x
  {
    var u := U32(x);
    if u < TWO31 then u else u - TWO32
  }

  /** `or` of two bytes. */
  function Or8(a: Byte, b: Byte): Byte {
    ((a as bv8) | (b as bv8)) as int
  }

  datatype Option<+T> = None | Some(value: T)
}
