/**
 The two squared-difference kernels of image.go: `sqDiff` on 16-bit channel
 values held in a uint32, and `sqDiffUInt8` on bytes widened to uint64.
 */
module SquaredDifference {
  import opened FixedWidth

  /** The largest value of a 16-bit colour channel. */
  const CHANNEL_MAX: int := 0xffff

  /** The largest value `sqDiff` returns on channel values: 0xffff * 0xffff >> 2. */
  const SQ_DIFF_MAX: int := 0x3fff_8000

  function Square(d: int): nat { d * d }

  function Dist(x: int, y: int): nat { if x > y then x - y else y - x }

  /**
   sqDiff: the squared difference of x and y, shifted right by 2 so that four
   results add up without overflowing a uint32. Its callers must pass values
   in [0, 0xffff]; on those the subtraction is the larger minus the smaller and
   the product d * d stays below 2^32, so neither wraps (the uint32 type of
   `d * d` is checked here), and the result is the floor of a quarter of the
   exact square.
   */
  function SqDiff(x: u32, y: u32): (r: u32)
    requires x as int <= CHANNEL_MAX && y as int <= CHANNEL_MAX
    ensures r as int == Square(x as int - y as int) / 4
    ensures r as int <= SQ_DIFF_MAX
  {
    var d: u32 := if x > y then x - y else y - x;
    assert d as int * d as int <= CHANNEL_MAX * CHANNEL_MAX by {
      SquareBelow(d as int, CHANNEL_MAX);
    }
    assert Square(x as int - y as int) == d as int * d as int;
    Shr2(d * d)
  }

  /**
   sqDiffUInt8: both bytes are widened to uint64 before subtracting, so when
   x < y the difference wraps to 2^64 - (y - x). Squaring modulo 2^64 gives the
   exact square all the same.
   */
  function SqDiffUInt8(x: u8, y: u8): (r: u64)
    ensures r as int == Square(x as int - y as int)
    ensures r as int <= 255 * 255
  {
    var d := Sub64(x as u64, y as u64);
    assert d as int * d as int % TWO_64 == Square(x as int - y as int) <= 255 * 255 by {
      if x >= y {
        SquareBelow(x as int - y as int, 255);
      } else {
        WrappedSquare(y as int - x as int);
      }
    }
    Mul64(d, d)
  }

  lemma SquareBelow(d: nat, bound: nat)
    requires d <= bound
    ensures Square(d) <= Square(bound)
  {
    assert d * d <= d * bound <= bound * bound;
  }

  /** (2^64 - k)^2 is k^2 modulo 2^64, for a byte-sized k. */
  lemma WrappedSquare(k: int)
    requires 0 < k <= 255
    ensures (TWO_64 - k) * (TWO_64 - k) % TWO_64 == k * k
  {
    SquareBelow(k, 255);
    assert (TWO_64 - k) * (TWO_64 - k) == k * k + TWO_64 * (TWO_64 - 2 * k);
  }

  // ----- Properties of the kernels -----

  /** sqDiff does not depend on the order of its arguments. */
  lemma SqDiffSymmetric(x: u32, y: u32)
    requires x as int <= CHANNEL_MAX && y as int <= CHANNEL_MAX
    ensures SqDiff(x, y) == SqDiff(y, x)
  {
  }

  /**
   On channel values sqDiff is zero exactly when the values differ by at most
   one (the shift discards the square 1): it is zero for inputs one apart as
   well, not only for equal ones.
   */
  lemma SqDiffZero(x: u32, y: u32)
    requires x as int <= CHANNEL_MAX && y as int <= CHANNEL_MAX
    ensures SqDiff(x, y) == 0 <==> Dist(x as int, y as int) <= 1
  {
    var d := Dist(x as int, y as int);
    assert Square(x as int - y as int) == d * d;
    if d >= 2 {
      SquareBelow(2, d);
    }
  }

  /** A larger distance between channel values never gives a smaller sqDiff. */
  lemma SqDiffMonotone(x: u32, y: u32, x': u32, y': u32)
    requires x as int <= CHANNEL_MAX && y as int <= CHANNEL_MAX
    requires x' as int <= CHANNEL_MAX && y' as int <= CHANNEL_MAX
    requires Dist(x as int, y as int) <= Dist(x' as int, y' as int)
    ensures SqDiff(x, y) <= SqDiff(x', y')
  {
    var d, d' := Dist(x as int, y as int), Dist(x' as int, y' as int);
    assert Square(x as int - y as int) == Square(d);
    assert Square(x' as int - y' as int) == Square(d');
    SquareBelow(d, d');
  }

  /** sqDiffUInt8 is symmetric. */
  lemma SqDiffUInt8Symmetric(x: u8, y: u8)
    ensures SqDiffUInt8(x, y) == SqDiffUInt8(y, x)
  {
    assert Square(x as int - y as int) == Square(y as int - x as int);
  }

  /** sqDiffUInt8 is zero exactly when its inputs are equal. */
  lemma SqDiffUInt8Zero(x: u8, y: u8)
    ensures SqDiffUInt8(x, y) == 0 <==> x == y
  {
    var d := x as int - y as int;
    if d > 0 {
      SquareBelow(1, d);
    } else if d < 0 {
      SquareBelow(1, -d);
      assert Square(d) == Square(-d);
    }
  }

  /** A larger byte distance never gives a smaller sqDiffUInt8. */
  lemma SqDiffUInt8Monotone(x: u8, y: u8, x': u8, y': u8)
    requires Dist(x as int, y as int) <= Dist(x' as int, y' as int)
    ensures SqDiffUInt8(x, y) <= SqDiffUInt8(x', y')
  {
    var d, d' := Dist(x as int, y as int), Dist(x' as int, y' as int);
    assert Square(x as int - y as int) == Square(d);
    assert Square(x' as int - y' as int) == Square(d');
    SquareBelow(d, d');
  }
}
