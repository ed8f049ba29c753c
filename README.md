# polygen image comparison, modelled in Dafny

This project models the image-difference scoring of polygen's `image.go` and
proves properties of the model. polygen scores how far a candidate image is
from a target image. The model covers:

- The two squared-difference kernels. `sqDiff` works on 16-bit channel values
  held in a `uint32`. `sqDiffUInt8` works on bytes widened to `uint64`.
- The two comparators. `Compare` walks every point of the bounds and sums four
  channel `sqDiff` terms per point. `FastCompare` walks the `Pix` byte buffer
  and sums `sqDiffUInt8` terms. Both accumulate into an `int64` and return its
  truncated square root, or `(0, error)` when the bounds of the two images
  differ.
- The `ConvertToRGBA` normaliser. It returns an `*image.RGBA` unchanged.
  Any other image becomes a fresh RGBA image with origin (0, 0).

Go's fixed-width integers are newtypes over `int` (`u8`, `u32`, `u64`, `i64`
in `fixed_width.dfy`), and wrap-around is written out:

- The `uint64` subtraction of `sqDiffUInt8` wraps when `x < y`.
- The `uint64` product is taken modulo 2^64.
- The `int64` accumulator wraps as two's complement.

In `sqDiff` the `uint32` operations are checked not to wrap at all. That
check is the overflow-freedom the source's comment promises.

The comparators are methods with loops, proved against recursive
specification sums:

- `GridSums.RectSum` is the row-major total of a per-point term over a
  rectangle.
- `Comparators.FastTotal` is the total of a byte prefix.

Every accumulator carries a ghost count of how often it has wrapped. Each
method's result is therefore the `int64` that the exact total leaves. Lemmas
show that the exact total fits for images up to a stated size.

The floating-point `math.Sqrt` is modelled as the floored integer square root.

Files:

- `fixed_width.dfy`: module `FixedWidth`.
- `sq_diff.dfy`: module `SquaredDifference`.
- `images.dfy`: module `Images`, holding the parts of Go's `image` package
  that are used, and `ConvertToRGBA`.
- `sums.dfy`: module `GridSums`.
- `compare.dfy`: module `Comparators`.

## Model

| member | source | states |
|---|---|---|
| FixedWidth.ToInt64 | image.go:49 | the `int64` conversion keeps every value that fits in 64-bit two's complement |
| FixedWidth.AddInt64Wraps | image.go:49 | `accumError +=` with a non-negative term gives the exact sum or the sum minus 2^64, and says which |
| FixedWidth.ToInt64Unwrap | image.go:36-53 | an `int64` equal to x up to whole multiples of 2^64 is the `int64` that x converts to |
| SquaredDifference.SqDiff | image.go:88-102 | for inputs in [0, 0xffff], which the comment at line 93 demands: neither the subtraction nor `d * d` wraps in `uint32`; the result is ⌊(x − y)² / 4⌋ and at most 0x3fff8000 |
| SquaredDifference.SqDiffUInt8 | image.go:104-110 | the result equals (x − y)² exactly, even though `uint64(x) - uint64(y)` wraps when x < y; it is at most 255 · 255 |
| SquaredDifference.SqDiffSymmetric | image.go:94-102 | sqDiff(x, y) == sqDiff(y, x) |
| SquaredDifference.SqDiffZero | image.go:94-102 | on channel values, sqDiff is 0 exactly when the inputs differ by at most 1; the shift discards a square of 1 |
| SquaredDifference.SqDiffMonotone | image.go:94-102 | a larger distance between the inputs never gives a smaller sqDiff |
| SquaredDifference.SqDiffUInt8Symmetric | image.go:104-110 | sqDiffUInt8(x, y) == sqDiffUInt8(y, x) |
| SquaredDifference.SqDiffUInt8Zero | image.go:104-110 | sqDiffUInt8(x, y) is 0 exactly when x == y |
| SquaredDifference.SqDiffUInt8Monotone | image.go:104-110 | a larger byte distance never gives a smaller sqDiffUInt8 |
| FixedWidth.Wrap64 | image.go:109 | the `uint64` that Go's arithmetic leaves is the exact value when it fits, and is always congruent to it modulo 2^64 |
| FixedWidth.Shr2 | image.go:101 | `>> 2` on a `uint32` is floored division by 4: 4·r ≤ x < 4·r + 4 |
| FixedWidth.Sub64 | image.go:108 | `uint64(x) - uint64(y)` is the exact difference modulo 2^64, so it wraps to 2^64 − (y − x) when x < y |
| FixedWidth.Mul64 | image.go:109 | the `uint64` product `d * d` is exact when it fits and congruent to the exact product modulo 2^64 |
| FixedWidth.AddInt64 | image.go:49 | `accumError +=` (also at line 66) is exact when the sum fits in an `int64`, and is always the `int64` that the exact sum converts to |
| Images.Rect | image.go:82 | `image.Rect` builds a rectangle with ordered corners, made of the given x and y coordinates |
| Images.ConvertToRGBA | image.go:75-86 | an `*image.RGBA` is returned unchanged; any other image gives ordered bounds with width and height equal to the input's up to sign, and its pixels are those drawn into it; for ordered input bounds the origin is (0, 0) and width and height are kept exactly |
| Images.ConvertToRGBAIdempotent | image.go:75-79 | normalising an already normalised image returns it unchanged |
| Comparators.ISqrt | image.go:53 | the root r satisfies r² ≤ n < (r + 1)² |
| Comparators.SqrtScore | image.go:53 | for a non-negative total the score is its floored square root; a negative total (only after the accumulator wrapped) gives the smallest `int64` |
| Comparators.ISqrtUnique | image.go:53 | only one number is the floored square root of n |
| Comparators.ISqrtMonotone | image.go:53 | a larger total never gives a smaller root |
| Comparators.PixelSum | image.go:41-48 | on 16-bit channels the four-term `uint32` sum does not overflow and is at most 4 · 0x3fff8000 |
| Comparators.PixelSumExact | image.go:48 | the `uint32` sum at line 48 is the exact total of the four channels' ⌊d² / 4⌋ |
| Comparators.SumPoints | image.go:36-51 | the nested loops visit rows Min.Y..Max.Y−1 and columns Min.X..Max.X−1; the wrapping `int64` accumulator ends as the `int64` that the exact sum of the point terms over the bounds converts to |
| Comparators.Compare | image.go:30-54 | an error carrying both bounds, with score 0, exactly when the bounds differ; otherwise the score is the square root step applied to the wrapped total; for at most 2^31 points the total does not wrap and the score is ⌊√total⌋ |
| Comparators.FastCompare | image.go:56-70 | an error carrying both bounds, with score 0, exactly when the bounds differ; otherwise the score is the square root of the wrapped total of (Pix1[i] − Pix2[i])² over i < len(img1.Pix); for at most 2^47 bytes this is exact; img2's Pix must be at least as long, or line 66 indexes past its end |
| Comparators.PreciseTotalBound | image.go:39-49 | the total of `Compare` is at most 4 · 0x3fff8000 per point |
| Comparators.PreciseTotalFits | image.go:36-53 | for at most 2^31 points the total of `Compare` is below 2^63, so the `int64` never wraps |
| Comparators.FastTotalBound | image.go:65-67 | the total of `FastCompare` is at most 255 · 255 per byte |
| Comparators.FastTotalFits | image.go:63-69 | for at most 2^47 bytes the total of `FastCompare` is below 2^63, so the `int64` never wraps |
| Comparators.PixelSumSame | image.go:48 | a colour compared with itself gives a point term of 0 |
| Comparators.PixelSumSymmetric | image.go:48 | the point term does not depend on the order of the two colours |
| Comparators.PreciseTotalSelf | image.go:36-53 | an image compared with itself has total 0 and score 0 |
| Comparators.PreciseTotalSymmetric | image.go:36-53 | swapping two images with equal bounds does not change the total of `Compare` |
| Comparators.FastTotalSelf | image.go:63-69 | a buffer compared with itself has total 0 and score 0 |
| Comparators.FastTotalSymmetric | image.go:63-69 | swapping the two buffers does not change the total of `FastCompare` |
| Comparators.FastTotalZero | image.go:63-67 | the byte total is 0 exactly when the two buffers agree on the bytes walked |
| Comparators.PixelSumMonotone | image.go:48 | channel-wise larger differences never give a smaller point term |
| Comparators.PreciseTotalMonotone | image.go:36-53 | if every channel at every point differs at least as much, total and score are at least as large |
| Comparators.FastTotalMonotone | image.go:63-69 | if every byte differs at least as much, total and score are at least as large |
| Comparators.UniformTotal | image.go:39-49 | two single-colour 2x2 images have a total of four times their point term |
| Comparators.TwelveChannelsRoot | image.go:53 | the score of twelve terms of 0x3fff8000 is 113509 |
| Comparators.BlackWhiteScore | image.go:31-54 | opaque black against opaque white, 2x2: the total is 12 · 0x3fff8000 and the score is 113509 |

## Left out

- `MustReadImage` (image.go:15-28) is file I/O through `os.Open`, `image.Decode` and `log.Fatal`. It is not modelled.
- The blank imports that register the GIF, JPEG and PNG decoders (image.go:7-9) have no logic. They are not modelled.
- `draw.Draw` (image.go:83) is library code that fills the new image. `ConvertToRGBA` takes the pixels it draws as the parameter `fill`.
- Images.ConvertToRGBA: does not state that the new `Pix` buffer holds 4 · width · height bytes, because that buffer comes from `image.NewRGBA` and `draw.Draw`, which are not modelled.
- `math.Sqrt(float64(accumError))` (image.go:53, 69) is floating point. It is modelled as the floored integer square root. The two can differ only once the total exceeds about 2^52, where `float64` rounding matters. That rounding is not modelled.
- Comparators.SqrtScore: a negative total gives NaN in Go, and converting NaN to `int64` depends on the platform. The model uses the amd64 result, the smallest `int64`.
- `At`, `color.RGBA.RGBA()`, `PixOffset` and `Stride` of `*image.RGBA` are Go library internals. The per-point colour is an abstract accessor returning four channels in [0, 0xffff], and `Pix` is an independent byte sequence. As a result, the model does not relate the scores of `Compare` and `FastCompare` for the same image. That would need the 8-bit to 16-bit expansion `c * 0x101`.
- Comparators.SumPoints: the per-point term is a function parameter. `Compare` passes it the term of lines 41-48. This keeps the loop proof apart from the kernel arithmetic; the order of the visits and the additions are those of the source.
- The text of the `fmt.Errorf` message is not modelled. The error value carries both bounds.
- image.go:47 has a TODO about ignoring alpha, since the colours are premultiplied. The code always adds the alpha term (line 48), and so does the model.
- Comparators.FastCompare: the index-out-of-range panic at image.go:66, when `img2.Pix` is shorter than `img1.Pix` on equal bounds, is not modelled. The requires `|img2.Pix()| >= |img1.Pix()|` excludes those calls.
- SquaredDifference.SqDiff: requires inputs in [0, 0xffff], as the comment at image.go:93 states. It does not model the `uint32` wrap-around that out-of-range inputs would cause.
- Images.ConvertToRGBA: `image.Rect` swaps the corners of bounds whose Min lies beyond Max. For such bounds only `|Dx|` and `|Dy|` are kept, and the origin is not (0, 0). The origin statement covers ordered bounds, which every `image.Image` built through `image.Rect` has.
