/** Shared value wrappers and the fixed-width integer ranges of the Go runtime. */
module Common {

  /** Go's nil-or-pointer results and "error or nil" returns. */
  datatype Option<+T> = None | Some(value: T)

  /** A value or the error that prevented it. */
  datatype Result<+T, +E> = Ok(value: T) | Err(error: E)

  const MAX_UINT64: int := 0xffff_ffff_ffff_ffff
  const MIN_INT64: int := -0x8000_0000_0000_0000
  const MAX_INT64: int := 0x7fff_ffff_ffff_ffff

  /** The range of Go's uint64 (and of uint on a 64-bit platform). */
  type uint64 = x: int | 0 <= x <= MAX_UINT64

  /** The range of Go's int on a 64-bit platform (also the range of int64). */
  type int64 = x: int | MIN_INT64 <= x <= MAX_INT64
}
