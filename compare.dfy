/**
 The two comparators of image.go. `Compare` walks every point of the bounds
 and adds up four channel `sqDiff` terms per point; `FastCompare` walks the
 `Pix` bytes and adds up `sqDiffUInt8` terms. Both accumulate into a wrapping
 int64 and return the integer square root of the total, or an error when the
 bounds of the two images differ.
 */
module Comparators {
  import opened FixedWidth
  import opened SquaredDifference
  import opened Images
  import opened GridSums

  datatype Option<T> = None | Some(value: T)

  /** The error `fmt.Errorf("image bounds not equal: ...")` returns; it carries both bounds. */
  datatype BoundsError = BoundsMismatch(bounds1: Rectangle, bounds2: Rectangle)

  /** The largest per-point term of `Compare`: four sqDiff results of at most SQ_DIFF_MAX. */
  const MAX_POINT_TERM: int := 4 * SQ_DIFF_MAX

  /** The largest per-byte term of `FastCompare`. */
  const MAX_BYTE_TERM: int := 255 * 255

  /** Up to this many points `Compare`'s int64 total cannot overflow. */
  const MAX_PRECISE_POINTS: int := 0x8000_0000

  /** Up to this many bytes `FastCompare`'s int64 total cannot overflow. */
  const MAX_FAST_BYTES: int := 0x8000_0000_0000

  // ----- The square-root step -----

  /** The floored integer square root. */
  function ISqrt(n: nat): (r: nat)
    ensures r * r <= n < (r + 1) * (r + 1)
  {
    if n == 0 then 0
    else
      var s := ISqrt(n - 1);
      assert (s + 2) * (s + 2) == (s + 1) * (s + 1) + 2 * s + 3;
      if (s + 1) * (s + 1) <= n then s + 1 else s
  }

  /**
   `int64(math.Sqrt(float64(accumError)))`, with the floating-point square
   root taken as the floored integer square root. A negative total (only
   possible after the int64 accumulator wrapped) gives NaN, which amd64
   converts to the smallest int64.
   */
  function SqrtScore(accum: i64): (score: i64)
    ensures accum >= 0 ==> 0 <= score && score as int * score as int <= accum as int < (score as int + 1) * (score as int + 1)
    ensures accum < 0 ==> score as int == -TWO_63
  {
    if accum < 0 then (-TWO_63) as i64
    else
      var r := ISqrt(accum as int);
      assert r <= r * r || r == 0;
      r as i64
  }

  /** Only one number is the floored square root of n. */
  lemma ISqrtUnique(n: nat, r: nat)
    requires r * r <= n < (r + 1) * (r + 1)
    ensures ISqrt(n) == r
  {
    var s := ISqrt(n);
    if s < r {
      SquareBelow(s + 1, r);
    } else if s > r {
      SquareBelow(r + 1, s);
    }
  }

  /** A larger total never gives a smaller square root. */
  lemma ISqrtMonotone(n: nat, m: nat)
    requires n <= m
    ensures ISqrt(n) <= ISqrt(m)
  {
    var s, t := ISqrt(n), ISqrt(m);
    if s > t {
      SquareBelow(t + 1, s);
    }
  }

  // ----- Compare: the per-point path -----

  /**
   The per-point sum of line 48: four sqDiff terms added in uint32, which
   stays within the headroom the shift in sqDiff leaves.
   */
  function PixelSum(c1: Color, c2: Color): (sum: u32)
    ensures sum as int <= MAX_POINT_TERM
  {
    SqDiff(c1.r as u32, c2.r as u32) + SqDiff(c1.g as u32, c2.g as u32) +
    SqDiff(c1.b as u32, c2.b as u32) + SqDiff(c1.a as u32, c2.a as u32)
  }

  /** The uint32 sum of line 48 is the exact total of the four channels' floored quarter-squares. */
  lemma PixelSumExact(c1: Color, c2: Color)
    ensures PixelSum(c1, c2) as int ==
              Square(c1.r as int - c2.r as int) / 4 + Square(c1.g as int - c2.g as int) / 4 +
              Square(c1.b as int - c2.b as int) / 4 + Square(c1.a as int - c2.a as int) / 4
  {
  }

  /** The term `Compare` adds for each point. */
  function PointTerms(img1: RGBA, img2: RGBA): (int, int) -> nat
  {
    (x, y) => PixelSum(img1.At(x, y), img2.At(x, y)) as int
  }

  /** The exact total of `Compare`: every point with Min <= (x, y) < Max of img1's bounds. */
  function PreciseTotal(img1: RGBA, img2: RGBA): nat
  {
    RectSum(PointTerms(img1, img2), img1.Bounds())
  }

  /**
   The walk of `Compare` over a rectangle: rows Min.Y .. Max.Y - 1 and in each
   row the columns Min.X .. Max.X - 1, adding each point's uint32 term to an
   int64 accumulator that wraps as Go's does. The accumulator ends up as the
   int64 that the exact total leaves. The per-point term `t` is a parameter so
   that the loop reasoning stays apart from the arithmetic of the term.
   */
  method SumPoints(t: (int, int) -> nat, b: Rectangle) returns (accum: i64)
    requires forall x, y :: InRect(b, x, y) ==> t(x, y) < 0x1_0000_0000
    ensures accum == ToInt64(RectSum(t, b))
  {
    accum := 0;
    // `exact` is the exact total so far, `wraps` how often the accumulator has wrapped
    ghost var exact, wraps := 0, 0;
    var y := b.min.y;
    while y < b.max.y
      invariant b.min.y <= y && (y <= b.max.y || y == b.min.y)
      invariant exact == GridSum(t, b, y)
      invariant accum as int + wraps * TWO_64 == exact
    {
      ghost var rowsDone := exact;
      var x := b.min.x;
      while x < b.max.x
        invariant b.min.x <= x && (x <= b.max.x || x == b.min.x)
        invariant exact == rowsDone + RowSum(t, y, b.min.x, x)
        invariant accum as int + wraps * TWO_64 == exact
      {
        var sum := t(x, y) as u32;
        RowSumStep(t, y, b.min.x, x);
        ghost var w := AddInt64Wraps(accum, sum as i64);
        accum, wraps, exact := AddInt64(accum, sum as i64), wraps + w, exact + sum as int;
        x := x + 1;
      }
      GridSumStep(t, b, y);
      y := y + 1;
    }
    assert exact == RectSum(t, b) by {
      if b.max.y < b.min.y {
        assert y == b.min.y;
      }
    }
    ToInt64Unwrap(accum, wraps);
  }

  /**
   Compare: an error (and score 0) exactly when the bounds differ; otherwise
   the square root of the int64 total of all point terms, which equals the exact
   total for images of up to MAX_PRECISE_POINTS points.
   */
  method Compare(img1: RGBA, img2: RGBA) returns (score: i64, err: Option<BoundsError>)
    ensures err.Some? <==> img1.Bounds() != img2.Bounds()
    ensures err.Some? ==> score == 0 && err.value == BoundsMismatch(img1.Bounds(), img2.Bounds())
    ensures err.None? ==> score == SqrtScore(ToInt64(PreciseTotal(img1, img2)))
    ensures err.None? && PixelCount(img1.Bounds()) <= MAX_PRECISE_POINTS ==>
              score as int == ISqrt(PreciseTotal(img1, img2))
  {
    if img1.Bounds() != img2.Bounds() {
      return 0, Some(BoundsMismatch(img1.Bounds(), img2.Bounds()));
    }
    var accum := SumPoints(PointTerms(img1, img2), img1.Bounds());
    score, err := SqrtScore(accum), None;
    if PixelCount(img1.Bounds()) <= MAX_PRECISE_POINTS {
      PreciseTotalFits(img1, img2);
    }
  }

  // ----- FastCompare: the byte path -----

  /** The sqDiffUInt8 terms of the first n bytes of the two buffers. */
  function FastTotal(pix1: seq<u8>, pix2: seq<u8>, n: nat): nat
    requires n <= |pix1| && n <= |pix2|
  {
    if n == 0 then 0
    else FastTotal(pix1, pix2, n - 1) + SqDiffUInt8(pix1[n - 1], pix2[n - 1]) as int
  }

  /**
   FastCompare: an error (and score 0) exactly when the bounds differ;
   otherwise the square root of the int64 total of the byte terms over img1's
   Pix, which is exact for buffers of up to MAX_FAST_BYTES bytes. img2's Pix
   must be at least as long, or the indexing panics.
   */
  method FastCompare(img1: RGBA, img2: RGBA) returns (score: i64, err: Option<BoundsError>)
    requires img1.Bounds() == img2.Bounds() ==> |img2.Pix()| >= |img1.Pix()|
    ensures err.Some? <==> img1.Bounds() != img2.Bounds()
    ensures err.Some? ==> score == 0 && err.value == BoundsMismatch(img1.Bounds(), img2.Bounds())
    ensures err.None? ==> score == SqrtScore(ToInt64(FastTotal(img1.Pix(), img2.Pix(), |img1.Pix()|)))
    ensures err.None? && |img1.Pix()| <= MAX_FAST_BYTES ==>
              score as int == ISqrt(FastTotal(img1.Pix(), img2.Pix(), |img1.Pix()|))
  {
    if img1.Bounds() != img2.Bounds() {
      return 0, Some(BoundsMismatch(img1.Bounds(), img2.Bounds()));
    }

    var accum: i64 := 0;
    ghost var wraps := 0;
    var pix1, pix2 := img1.Pix(), img2.Pix();

    var i := 0;
    while i < |pix1|
      invariant 0 <= i <= |pix1|
      invariant accum as int + wraps * TWO_64 == FastTotal(pix1, pix2, i)
    {
      var term := ToInt64(SqDiffUInt8(pix1[i], pix2[i]) as int);
      ghost var w := AddInt64Wraps(accum, term);
      accum, wraps := AddInt64(accum, term), wraps + w;
      i := i + 1;
    }

    ToInt64Unwrap(accum, wraps);
    score, err := SqrtScore(accum), None;
    if |pix1| <= MAX_FAST_BYTES {
      FastTotalFits(pix1, pix2, |pix1|);
    }
  }

  // ----- Overflow bounds -----

  /** The total of `Compare` is at most MAX_POINT_TERM per point. */
  lemma PreciseTotalBound(img1: RGBA, img2: RGBA)
    ensures PreciseTotal(img1, img2) <= PixelCount(img1.Bounds()) * MAX_POINT_TERM
  {
    RectSumBound(PointTerms(img1, img2), img1.Bounds(), MAX_POINT_TERM);
  }

  /** Up to MAX_PRECISE_POINTS points the int64 accumulator of `Compare` never wraps. */
  lemma PreciseTotalFits(img1: RGBA, img2: RGBA)
    requires PixelCount(img1.Bounds()) <= MAX_PRECISE_POINTS
    ensures PreciseTotal(img1, img2) < TWO_63
    ensures ToInt64(PreciseTotal(img1, img2)) as int == PreciseTotal(img1, img2)
  {
    PreciseTotalBound(img1, img2);
    MulLe(PixelCount(img1.Bounds()), MAX_PRECISE_POINTS, MAX_POINT_TERM);
  }

  /** The total of `FastCompare` is at most 255 * 255 per byte. */
  lemma {:induction false} FastTotalBound(pix1: seq<u8>, pix2: seq<u8>, n: nat)
    requires n <= |pix1| && n <= |pix2|
    ensures FastTotal(pix1, pix2, n) <= n * MAX_BYTE_TERM
  {
    if n > 0 {
      FastTotalBound(pix1, pix2, n - 1);
    }
  }

  /** Up to MAX_FAST_BYTES bytes the int64 accumulator of `FastCompare` never wraps. */
  lemma FastTotalFits(pix1: seq<u8>, pix2: seq<u8>, n: nat)
    requires n <= |pix1| && n <= |pix2| && n <= MAX_FAST_BYTES
    ensures FastTotal(pix1, pix2, n) < TWO_63
    ensures ToInt64(FastTotal(pix1, pix2, n)) as int == FastTotal(pix1, pix2, n)
  {
    FastTotalBound(pix1, pix2, n);
    MulLe(n, MAX_FAST_BYTES, MAX_BYTE_TERM);
  }

  lemma MulLe(a: nat, b: nat, c: nat)
    requires a <= b
    ensures a * c <= b * c
  {
  }

  // ----- Identity and symmetry -----

  /** A colour compared with itself contributes nothing. */
  lemma PixelSumSame(c: Color)
    ensures PixelSum(c, c) == 0
  {
    SqDiffZero(c.r as u32, c.r as u32);
    SqDiffZero(c.g as u32, c.g as u32);
    SqDiffZero(c.b as u32, c.b as u32);
    SqDiffZero(c.a as u32, c.a as u32);
  }

  /** The point term does not depend on the order of the two colours. */
  lemma PixelSumSymmetric(c1: Color, c2: Color)
    ensures PixelSum(c1, c2) == PixelSum(c2, c1)
  {
    SqDiffSymmetric(c1.r as u32, c2.r as u32);
    SqDiffSymmetric(c1.g as u32, c2.g as u32);
    SqDiffSymmetric(c1.b as u32, c2.b as u32);
    SqDiffSymmetric(c1.a as u32, c2.a as u32);
  }

  /** Comparing an image with itself gives total 0 and score 0. */
  lemma PreciseTotalSelf(img: RGBA)
    ensures PreciseTotal(img, img) == 0
    ensures SqrtScore(ToInt64(PreciseTotal(img, img))) == 0
  {
    forall x, y | InRect(img.Bounds(), x, y)
      ensures PointTerms(img, img)(x, y) == 0
    {
      PixelSumSame(img.At(x, y));
    }
    RectSumConst(PointTerms(img, img), img.Bounds(), 0);
  }

  /** Swapping two comparable images does not change the total of `Compare`. */
  lemma PreciseTotalSymmetric(img1: RGBA, img2: RGBA)
    requires img1.Bounds() == img2.Bounds()
    ensures PreciseTotal(img1, img2) == PreciseTotal(img2, img1)
  {
    forall x, y | InRect(img1.Bounds(), x, y)
      ensures PointTerms(img1, img2)(x, y) == PointTerms(img2, img1)(x, y)
    {
      PixelSumSymmetric(img1.At(x, y), img2.At(x, y));
    }
    RectSumEq(PointTerms(img1, img2), PointTerms(img2, img1), img1.Bounds());
  }

  /** A buffer compared with itself gives total 0 and score 0. */
  lemma {:induction false} FastTotalSelf(pix: seq<u8>, n: nat)
    requires n <= |pix|
    ensures FastTotal(pix, pix, n) == 0
    ensures SqrtScore(ToInt64(FastTotal(pix, pix, n))) == 0
  {
    if n > 0 {
      FastTotalSelf(pix, n - 1);
      SqDiffUInt8Zero(pix[n - 1], pix[n - 1]);
    }
  }

  /** Swapping the two buffers does not change the total of `FastCompare`. */
  lemma {:induction false} FastTotalSymmetric(pix1: seq<u8>, pix2: seq<u8>, n: nat)
    requires n <= |pix1| && n <= |pix2|
    ensures FastTotal(pix1, pix2, n) == FastTotal(pix2, pix1, n)
  {
    if n > 0 {
      FastTotalSymmetric(pix1, pix2, n - 1);
      SqDiffUInt8Symmetric(pix1[n - 1], pix2[n - 1]);
    }
  }

  /** The byte total is zero exactly when the two buffers agree on their first n bytes. */
  lemma {:induction false} FastTotalZero(pix1: seq<u8>, pix2: seq<u8>, n: nat)
    requires n <= |pix1| && n <= |pix2|
    ensures FastTotal(pix1, pix2, n) == 0 <==> pix1[..n] == pix2[..n]
  {
    if n > 0 {
      FastTotalZero(pix1, pix2, n - 1);
      SqDiffUInt8Zero(pix1[n - 1], pix2[n - 1]);
      assert pix1[..n] == pix1[..n - 1] + [pix1[n - 1]];
      assert pix2[..n] == pix2[..n - 1] + [pix2[n - 1]];
      if pix1[..n] == pix2[..n] {
        assert pix1[..n - 1] == pix1[..n][..n - 1] && pix2[..n - 1] == pix2[..n][..n - 1];
        assert pix1[n - 1] == pix1[..n][n - 1];
        assert pix2[n - 1] == pix2[..n][n - 1];
      }
    }
  }

  // ----- Monotonicity -----

  /** Each channel of c1 and c2 is at most as far apart as in d1 and d2. */
  predicate ChannelsCloser(c1: Color, c2: Color, d1: Color, d2: Color)
  {
    Dist(c1.r as int, c2.r as int) <= Dist(d1.r as int, d2.r as int) &&
    Dist(c1.g as int, c2.g as int) <= Dist(d1.g as int, d2.g as int) &&
    Dist(c1.b as int, c2.b as int) <= Dist(d1.b as int, d2.b as int) &&
    Dist(c1.a as int, c2.a as int) <= Dist(d1.a as int, d2.a as int)
  }

  /** Channel-wise larger differences never give a smaller point term. */
  lemma PixelSumMonotone(c1: Color, c2: Color, d1: Color, d2: Color)
    requires ChannelsCloser(c1, c2, d1, d2)
    ensures PixelSum(c1, c2) <= PixelSum(d1, d2)
  {
    SqDiffMonotone(c1.r as u32, c2.r as u32, d1.r as u32, d2.r as u32);
    SqDiffMonotone(c1.g as u32, c2.g as u32, d1.g as u32, d2.g as u32);
    SqDiffMonotone(c1.b as u32, c2.b as u32, d1.b as u32, d2.b as u32);
    SqDiffMonotone(c1.a as u32, c2.a as u32, d1.a as u32, d2.a as u32);
  }

  /**
   If at every point of the bounds each channel differs at least as much in
   the second pair of images as in the first, the second pair's total and score
   are at least as large.
   */
  lemma PreciseTotalMonotone(a1: RGBA, a2: RGBA, b1: RGBA, b2: RGBA)
    requires a1.Bounds() == b1.Bounds()
    requires forall x, y :: InRect(a1.Bounds(), x, y) ==> ChannelsCloser(a1.At(x, y), a2.At(x, y), b1.At(x, y), b2.At(x, y))
    ensures PreciseTotal(a1, a2) <= PreciseTotal(b1, b2)
    ensures ISqrt(PreciseTotal(a1, a2)) <= ISqrt(PreciseTotal(b1, b2))
  {
    forall x, y | InRect(a1.Bounds(), x, y)
      ensures PointTerms(a1, a2)(x, y) <= PointTerms(b1, b2)(x, y)
    {
      PixelSumMonotone(a1.At(x, y), a2.At(x, y), b1.At(x, y), b2.At(x, y));
    }
    RectSumLe(PointTerms(a1, a2), PointTerms(b1, b2), a1.Bounds());
    ISqrtMonotone(PreciseTotal(a1, a2), PreciseTotal(b1, b2));
  }

  /**
   If every byte differs at least as much in the second pair of buffers as in
   the first, the second pair's total and score are at least as large.
   */
  lemma {:induction false} FastTotalMonotone(p1: seq<u8>, p2: seq<u8>, q1: seq<u8>, q2: seq<u8>, n: nat)
    requires n <= |p1| && n <= |p2| && n <= |q1| && n <= |q2|
    requires forall i :: 0 <= i < n ==> Dist(p1[i] as int, p2[i] as int) <= Dist(q1[i] as int, q2[i] as int)
    ensures FastTotal(p1, p2, n) <= FastTotal(q1, q2, n)
    ensures ISqrt(FastTotal(p1, p2, n)) <= ISqrt(FastTotal(q1, q2, n))
  {
    if n > 0 {
      FastTotalMonotone(p1, p2, q1, q2, n - 1);
      SqDiffUInt8Monotone(p1[n - 1], p2[n - 1], q1[n - 1], q2[n - 1]);
    }
    ISqrtMonotone(FastTotal(p1, p2, n), FastTotal(q1, q2, n));
  }

  // ----- A concrete scenario -----

  /** A 2x2 image of one colour, with a 4-byte-per-point buffer. */
  function Uniform(c: Color, px: seq<u8>): RGBA
  {
    RGBA(Rect(0, 0, 2, 2), PixelData(px + px + px + px, (x, y) => c))
  }

  /** Two uniform 2x2 images differ by the same point term at each of their four points. */
  lemma UniformTotal(c1: Color, px1: seq<u8>, c2: Color, px2: seq<u8>)
    ensures PreciseTotal(Uniform(c1, px1), Uniform(c2, px2)) == 4 * PixelSum(c1, c2) as int
  {
    var img1, img2 := Uniform(c1, px1), Uniform(c2, px2);
    assert PixelCount(img1.Bounds()) == 4;
    RectSumConst(PointTerms(img1, img2), img1.Bounds(), PixelSum(c1, c2) as int);
  }

  /**
   Opaque black against opaque white, 2x2: three channels differ by 0xffff at
   each of four points, so the total is 12 * (0xffff * 0xffff >> 2) and the
   score its floored square root, 113509.
   */
  lemma BlackWhiteScore()
    ensures var black := Uniform(Color(0, 0, 0, 0xffff), [0, 0, 0, 255]);
            var white := Uniform(Color(0xffff, 0xffff, 0xffff, 0xffff), [255, 255, 255, 255]);
            PreciseTotal(black, white) == 12 * SQ_DIFF_MAX &&
            SqrtScore(ToInt64(PreciseTotal(black, white))) == 113509
  {
    var cb, cw := Color(0, 0, 0, 0xffff), Color(0xffff, 0xffff, 0xffff, 0xffff);
    var black, white := Uniform(cb, [0, 0, 0, 255]), Uniform(cw, [255, 255, 255, 255]);
    PixelSumExact(cb, cw);
    assert PixelSum(cb, cw) as int == 3 * SQ_DIFF_MAX;
    UniformTotal(cb, [0, 0, 0, 255], cw, [255, 255, 255, 255]);
    TwelveChannelsRoot();
  }

  /** The score of twelve channels that differ by 0xffff. */
  lemma TwelveChannelsRoot()
    ensures SqrtScore(ToInt64(12 * SQ_DIFF_MAX)) == 113509
  {
    assert ToInt64(12 * SQ_DIFF_MAX) as int == 12 * SQ_DIFF_MAX;
    ISqrtUnique(12 * SQ_DIFF_MAX, 113509);
  }
}
