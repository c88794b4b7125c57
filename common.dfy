/** Value types shared by every part of the model. */
module Common {
  /** An unsigned 8-bit integer, Rust's `u8`. */
  type byte = x: int | 0 <= x < 0x100

  /** An unsigned 16-bit integer, Rust's `u16`. */
  type u16 = x: int | 0 <= x < 0x1_0000

  /** Rust's `Option`. */
  datatype Option<+T> = None | Some(value: T)
}
