/** Vocabulary shared by every layer: failures, machine integers and their saturating arithmetic. */
module Basics {

  datatype Option<+T> = None | Some(value: T)

  datatype Result<+T, +E> = Ok(value: T) | Err(error: E)

  const TWO_63: int := 0x8000_0000_0000_0000
  const TWO_64: int := 0x1_0000_0000_0000_0000

  type byte = n: int | 0 <= n < 256
  type i64 = n: int | -0x8000_0000_0000_0000 <= n < 0x8000_0000_0000_0000
  type u64 = n: int | 0 <= n < 0x1_0000_0000_0000_0000

  const I64_MAX: i64 := 0x7fff_ffff_ffff_ffff

  // usize on a 64-bit target.
  const USIZE_MAX: u64 := 0xffff_ffff_ffff_ffff

  function SaturatingAdd(a: i64, b: i64): (r: i64)
    ensures -TWO_63 <= a + b < TWO_63 ==> r == a + b
    ensures a + b >= TWO_63 ==> r == I64_MAX
    ensures a + b < -TWO_63 ==> r == -TWO_63
  {
    if a + b > I64_MAX then I64_MAX else if a + b < -TWO_63 then -TWO_63 else a + b
  }

  function SaturatingUsize(n: nat): (r: u64)
    ensures r <= n
    ensures n <= USIZE_MAX ==> r == n
    ensures n > USIZE_MAX ==> r == USIZE_MAX
  {
    if n > USIZE_MAX then USIZE_MAX else n
  }

  /** Rust's `as i64` on a u64: two's-complement wrap-around. */
  function WrapToI64(n: u64): (r: i64)
    ensures n <= I64_MAX ==> r == n
    ensures n > I64_MAX ==> r < 0 && r == n - TWO_64
  {
    if n < TWO_63 then n else n - TWO_64
  }
}
