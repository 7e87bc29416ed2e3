/** Shared value types: optional values, results, and the widths of machine integers. */
module Prelude {

  datatype Option<+T> = None | Some(value: T)

  datatype Result<+T, +E> = Ok(value: T) | Err(error: E)

  /** 2^32: the number of `u32` values. */
  const U32: nat := 0x1_0000_0000

  /** 2^64: the number of `u64` values. */
  const U64: nat := 0x1_0000_0000_0000_0000

  const PAGE: nat := 4096

  ghost predicate Distinct<T>(s: seq<T>) {
    forall i, j | 0 <= i < j < |s| :: s[i] != s[j]
  }
}
