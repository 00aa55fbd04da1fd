/**
 * Rust's `as` conversions from a floating-point value to an integer type,
 * over Dafny reals: the value is rounded toward zero and then saturated to
 * the target type's range. (NaN, which maps to 0 in Rust, has no real
 * counterpart and is not modelled.)
 */
module Casts {

  const I32Min: int := -0x8000_0000
  const I32Max: int := 0x7FFF_FFFF
  const U8Max: int := 0xFF

  /** Rounding toward zero: the integer part of `v`. */
  function TruncTowardZero(v: real): (r: int)
    ensures v >= 0.0 ==> r as real <= v < r as real + 1.0
    ensures v < 0.0 ==> r as real - 1.0 < v <= r as real
  {
    if v >= 0.0 then v.Floor else -((-v).Floor)
  }

  /** `v as T` for an integer type T whose range is [lo, hi]. */
  function SaturatingCast(v: real, lo: int, hi: int): (r: int)
    requires lo <= 0 <= hi
    ensures lo <= r <= hi
    ensures lo as real <= v <= hi as real ==> r == TruncTowardZero(v)
    ensures v <= lo as real ==> r == lo
    ensures v >= hi as real ==> r == hi
  {
    var t := TruncTowardZero(v);
    if t < lo then lo else if t > hi then hi else t
  }

  /** `v as i32`. */
  function ToI32(v: real): (r: int)
    ensures I32Min <= r <= I32Max
    ensures 0.0 <= v < I32Max as real ==> r as real <= v < r as real + 1.0
  {
    SaturatingCast(v, I32Min, I32Max)
  }

  /** `v as u8`. */
  function ToU8(v: real): (r: int)
    ensures 0 <= r <= U8Max
    ensures 0.0 <= v < U8Max as real ==> r as real <= v < r as real + 1.0
    ensures v <= 0.0 ==> r == 0
    ensures v >= U8Max as real ==> r == U8Max
  {
    SaturatingCast(v, 0, U8Max)
  }
}
