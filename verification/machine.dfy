/** Fixed-width integers, optional values and the byte-string helpers shared
    by every generator. Rust's `u8`/`u16`/`u32`/`usize` become subset types of
    `int`, so an increment that could leave its range must be justified where
    it happens; `usize` is 64 bits wide. */
module Machine {

  const U8_LIMIT: int := 0x100
  const U16_MAX: int := 0xFFFF
  const U32_MAX: int := 0xFFFF_FFFF
  const U64_MAX: int := 0xFFFF_FFFF_FFFF_FFFF
  const I64_MIN: int := -0x8000_0000_0000_0000
  const I64_MAX: int := 0x7FFF_FFFF_FFFF_FFFF

  type u8 = x: int | 0 <= x < 0x100
  type u16 = x: int | 0 <= x <= 0xFFFF
  type u32 = x: int | 0 <= x <= 0xFFFF_FFFF
  type u64 = x: int | 0 <= x <= 0xFFFF_FFFF_FFFF_FFFF
  type usize = u64
  type i64 = x: int | -0x8000_0000_0000_0000 <= x <= 0x7FFF_FFFF_FFFF_FFFF

  /** A Rust `Vec<u8>`. */
  type bytes = seq<u8>

  /** The byte `'A'`, the padding every generator starts with. */
  const PAD_A: u8 := 0x41

  datatype Option<+T> = None | Some(value: T)

  datatype Result<+T, +E> = Ok(value: T) | Err(error: E)

  /** `vec![x; n]`. */
  function Repeat<T>(x: T, n: nat): (r: seq<T>)
    ensures |r| == n
    ensures forall i :: 0 <= i < n ==> r[i] == x
  {
    if n == 0 then [] else Repeat(x, n - 1) + [x]
  }

  /** The byte string `s` popped down to, or padded with `pad` up to, exactly
      `n` bytes: the pair of `while` loops that finish every candidate. */
  function Fit(s: bytes, n: nat, pad: u8): (r: bytes)
    ensures |r| == n
    ensures forall i :: 0 <= i < n && i < |s| ==> r[i] == s[i]
    ensures forall i :: |s| <= i < n ==> r[i] == pad
  {
    if |s| >= n then s[..n] else s + Repeat(pad, n - |s|)
  }

  /** The indices `0, 1, ..., n - 1` in increasing order. */
  function Upto(n: nat): (r: seq<nat>)
    ensures |r| == n
    ensures forall i :: 0 <= i < n ==> r[i] == i
  {
    if n == 0 then [] else Upto(n - 1) + [n - 1]
  }

  /** The integers `lo, lo + 1, ..., hi`; empty when `lo > hi`. */
  function Interval(lo: int, hi: int): (r: seq<int>)
    ensures |r| == if lo <= hi then hi - lo + 1 else 0
    ensures forall i :: 0 <= i < |r| ==> r[i] == lo + i
    decreases hi - lo
  {
    if lo > hi then [] else [lo] + Interval(lo + 1, hi)
  }
}
