/** Small value types shared by the modules of the model. */
module Common {

  /** Rust's `Option<T>`. */
  datatype Option<+T> = None | Some(value: T)

  /** Rust's `u8`. */
  newtype u8 = x: int | 0 <= x < 0x100

  /** Rust's `u16`: one UTF-16 code unit. */
  newtype u16 = x: int | 0 <= x < 0x1_0000

  /** `s.starts_with(prefix)` on strings. */
  predicate StartsWith(s: string, prefix: string)
  {
    |prefix| <= |s| && s[..|prefix|] == prefix
  }
}
