/**
 Go's fixed-width integer types as subsets of the mathematical integers,
 with the wrap-around of Go's arithmetic written out explicitly.
 */
module FixedWidth {

  const TWO_63: int := 0x8000_0000_0000_0000
  const TWO_64: int := 0x1_0000_0000_0000_0000

  newtype u8 = x: int | 0 <= x < 0x100
  newtype u32 = x: int | 0 <= x < 0x1_0000_0000
  newtype u64 = x: int | 0 <= x < 0x1_0000_0000_0000_0000
  newtype i64 = x: int | -0x8000_0000_0000_0000 <= x < 0x8000_0000_0000_0000

  /** The uint64 that Go's arithmetic leaves from the exact value `x`. */
  function Wrap64(x: int): (r: u64)
    ensures 0 <= x < TWO_64 ==> r as int == x
    ensures (x - r as int) % TWO_64 == 0
  {
    (x % TWO_64) as u64
  }

  /** The int64 (two's complement) that Go's arithmetic or conversion leaves from `x`. */
  function ToInt64(x: int): (r: i64)
    ensures -TWO_63 <= x < TWO_63 ==> r as int == x
  {
    ((x + TWO_63) % TWO_64 - TWO_63) as i64
  }

  /** uint32 `>> 2`: unsigned, so a floored division by 4. */
  function Shr2(x: u32): (r: u32)
    ensures 4 * r as int <= x as int < 4 * r as int + 4
  {
    x / 4
  }

  /** uint64 subtraction: the exact difference modulo 2^64. */
  function Sub64(x: u64, y: u64): (r: u64)
    ensures r as int == (x as int - y as int) % TWO_64
  {
    if x >= y then x - y else (x as int - y as int + TWO_64) as u64
  }

  /** uint64 multiplication: exact when the product fits, otherwise congruent to it modulo 2^64. */
  function Mul64(x: u64, y: u64): (r: u64)
    ensures x as int * y as int < TWO_64 ==> r as int == x as int * y as int
    ensures (x as int * y as int - r as int) % TWO_64 == 0
  {
    Wrap64(x as int * y as int)
  }

  /** int64 addition `a += b`, as Go performs it: two's complement, wrapping at most once. */
  function AddInt64(a: i64, b: i64): (r: i64)
    ensures -TWO_63 <= a as int + b as int < TWO_63 ==> r as int == a as int + b as int
    ensures r == ToInt64(a as int + b as int)
  {
    var s := a as int + b as int;
    if s >= TWO_63 then (s - TWO_64) as i64
    else if s < -TWO_63 then (s + TWO_64) as i64
    else s as i64
  }

  /** Adding a non-negative int64 wraps at most once, downwards by 2^64. */
  lemma AddInt64Wraps(a: i64, b: i64) returns (w: int)
    requires b >= 0
    ensures w == 0 || w == 1
    ensures AddInt64(a, b) as int + w * TWO_64 == a as int + b as int
  {
    w := if a as int + b as int >= TWO_63 then 1 else 0;
  }

  /** An int64 that is `x` up to whole multiples of 2^64 is the int64 Go leaves from `x`. */
  lemma ToInt64Unwrap(a: i64, wraps: int)
    ensures ToInt64(a as int + wraps * TWO_64) == a
  {
    var x := a as int + wraps * TWO_64;
    assert x + TWO_63 == (a as int + TWO_63) + TWO_64 * wraps;
    assert (x + TWO_63) % TWO_64 == (a as int + TWO_63) % TWO_64;
  }
}
