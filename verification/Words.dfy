/** Machine integers among the unbounded ones. */
module Words {

  /** The numbers of values of a 32-bit and of a 64-bit word. */
  const TWO32: int := 0x1_0000_0000
  const TWO64: int := 0x1_0000_0000_0000_0000

  const INT64_MAX: int := 0x7FFF_FFFF_FFFF_FFFF

  type u8 = x: int | 0 <= x < 0x100
  type u16 = x: int | 0 <= x < 0x1_0000
  type u32 = x: int | 0 <= x < 0x1_0000_0000
  type u64 = x: int | 0 <= x < 0x1_0000_0000_0000_0000
  type i8 = x: int | -0x80 <= x < 0x80
  type i16 = x: int | -0x8000 <= x < 0x8000
  type i32 = x: int | -0x8000_0000 <= x < 0x8000_0000
  type i64 = x: int | -0x8000_0000_0000_0000 <= x < 0x8000_0000_0000_0000

  predicate IsInt32(x: int) { -0x8000_0000 <= x < 0x8000_0000 }

  /** Assignment of an int64 to an int. */
  function Narrow(x: int): (r: int)
    ensures IsInt32(r)
    ensures r == x <==> IsInt32(x)
  {
    (x + 0x8000_0000) % 0x1_0000_0000 - 0x8000_0000
  }
}
