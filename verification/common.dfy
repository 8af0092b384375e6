/** Number types of the target and the small types that several modules share. */
module Common {

  type byte = x: int | 0 <= x < 0x100
  type u16 = x: int | 0 <= x < 0x1_0000
  type u32 = x: int | 0 <= x < 0x1_0000_0000
  type u64 = x: int | 0 <= x < 0x1_0000_0000_0000_0000
  type i32 = x: int | -0x8000_0000 <= x < 0x8000_0000

  /** A `float` or `double`: a real number, or one of the values `isfinite` refuses. */
  datatype Float = Finite(value: real) | NonFinite

  datatype Option<+T> = None | Some(value: T)

  function Abs(v: real): real {
    if v < 0.0 then -v else v
  }
}
