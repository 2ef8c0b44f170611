/** Machine integer types and the Option type shared by the whole model. */
module Base {

  /** A Rust `u16`: one cell of the watcher's buffer, one UTF-16 code unit. */
  type U16 = x: int | 0 <= x < 0x1_0000

  /** A Rust `u32` / Win32 `DWORD`. */
  type U32 = x: int | 0 <= x < 0x1_0000_0000

  /** A Win32 `BOOL`, which is a signed 32-bit integer. */
  type I32 = x: int | -0x8000_0000 <= x < 0x8000_0000

  /** `None` stands for a Rust panic: an index out of bounds, an `unwrap` on an
      error, or an `unreachable!()`. */
  datatype Option<+T> = None | Some(value: T)
}
