/** Rust's fixed-width integers as subset types of `int`, and the operations on
    them whose result can leave the range. Arithmetic on these types is done in
    `int`, so a result has to be shown to fit before it is stored again. */
module MachineInts {

  const MAX_I128: int := 0x7FFF_FFFF_FFFF_FFFF_FFFF_FFFF_FFFF_FFFF
  const MIN_I128: int := -0x8000_0000_0000_0000_0000_0000_0000_0000
  const MAX_U128: int := 0xFFFF_FFFF_FFFF_FFFF_FFFF_FFFF_FFFF_FFFF
  const MAX_U64: int := 0xFFFF_FFFF_FFFF_FFFF
  const MAX_U32: int := 0xFFFF_FFFF

  type I128 = x: int | MIN_I128 <= x <= MAX_I128
  type U128 = x: int | 0 <= x <= MAX_U128
  type U64 = x: int | 0 <= x <= MAX_U64
  type U32 = x: int | 0 <= x <= MAX_U32

  predicate FitsI128(x: int) { MIN_I128 <= x <= MAX_I128 }

  predicate FitsU64(x: int) { 0 <= x <= MAX_U64 }

  /** Division as Rust does it, rounding towards zero. */
  function TruncDiv(a: int, b: int): (q: int)
    requires b > 0
    ensures a >= 0 ==> q * b <= a < (q + 1) * b
    ensures a < 0 ==> (q - 1) * b < a <= q * b
  {
    if a >= 0 then a / b else -((-a) / b)
  }

  /** A Rust `as u32` cast. */
  function AsU32(x: int): (r: U32)
    ensures 0 <= x <= MAX_U32 ==> r == x
  {
    x % (MAX_U32 + 1)
  }

  /** A Rust `as u64` cast. */
  function AsU64(x: int): (r: U64)
    ensures 0 <= x <= MAX_U64 ==> r == x
  {
    x % (MAX_U64 + 1)
  }

  /** A Rust `u128 as i128` cast. */
  function U128AsI128(x: U128): (r: I128)
    ensures x <= MAX_I128 <==> r >= 0
    ensures x <= MAX_I128 ==> r == x
  {
    if x <= MAX_I128 then x else x - (MAX_U128 + 1)
  }

  /** The result of a contract entry point. An `Err` leaves the stored state as
      it was, because the host rolls the call back. */
  datatype Outcome<+T, +E> = Ok(value: T) | Err(error: E)

  datatype Option<+T> = None | Some(value: T)
}
