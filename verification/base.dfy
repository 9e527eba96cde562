/** Small shared vocabulary: an optional value standing for a nullable pointer, and the
    fixed-width unsigned integer ranges the C++ structures use. */
module Base {

  /** A value that may be absent, in place of a pointer that may be null. */
  datatype Option<+T> = None | Some(value: T)

  const TWO_8: int := 0x100
  const TWO_32: int := 0x1_0000_0000
  const TWO_64: int := 0x1_0000_0000_0000_0000

  type u8 = x: int | 0 <= x < TWO_8
  type u32 = x: int | 0 <= x < TWO_32
  type u64 = x: int | 0 <= x < TWO_64
}
