/**
 The parts of Go's `image` package that the comparators and `ConvertToRGBA`
 rely on: points, rectangles, colours, `*image.RGBA` and the `image.Image`
 interface, and the `ConvertToRGBA` normaliser of image.go.
 */
module Images {
  import opened FixedWidth

  datatype Point = Point(x: int, y: int)

  /** image.Rectangle: Min is inclusive, Max exclusive. */
  datatype Rectangle = Rectangle(min: Point, max: Point)

  /** Rectangle.Dx and Rectangle.Dy. */
  function Dx(r: Rectangle): int { r.max.x - r.min.x }
  function Dy(r: Rectangle): int { r.max.y - r.min.y }

  /** A rectangle whose corners are in order (what image.Rect always builds). */
  predicate WellFormed(r: Rectangle) { r.min.x <= r.max.x && r.min.y <= r.max.y }

  /** The number of columns and rows a loop from Min to Max visits. */
  function Width(r: Rectangle): nat { if Dx(r) > 0 then Dx(r) else 0 }
  function Height(r: Rectangle): nat { if Dy(r) > 0 then Dy(r) else 0 }

  /** The number of points `(x, y)` with Min <= (x, y) < Max. */
  function PixelCount(r: Rectangle): nat { Width(r) * Height(r) }

  /** image.Rect: the rectangle with the given corners, swapped into order where needed. */
  function Rect(x0: int, y0: int, x1: int, y1: int): (r: Rectangle)
    ensures WellFormed(r)
    ensures {r.min.x, r.max.x} == {x0, x1} && {r.min.y, r.max.y} == {y0, y1}
  {
    var (lx, hx) := if x0 > x1 then (x1, x0) else (x0, x1);
    var (ly, hy) := if y0 > y1 then (y1, y0) else (y0, y1);
    Rectangle(Point(lx, ly), Point(hx, hy))
  }

  /** A 16-bit premultiplied channel value, as color.Color.RGBA returns it. */
  newtype Channel = c: int | 0 <= c <= 0xffff

  /** The four channels `c.RGBA()` returns for the colour at one point. */
  datatype Color = Color(r: Channel, g: Channel, b: Channel, a: Channel)

  /**
   The pixel contents of an `*image.RGBA`: the flat byte buffer `Pix` and the
   per-point colour accessor `At(x, y).RGBA()`, kept abstract.
   */
  datatype PixelData = PixelData(pix: seq<u8>, at: (int, int) -> Color)

  /** *image.RGBA: its bounds `Rect` and its pixels. */
  datatype RGBA = RGBA(rect: Rectangle, data: PixelData)
  {
    function Bounds(): Rectangle { rect }
    function Pix(): seq<u8> { data.pix }
    function At(x: int, y: int): Color { data.at(x, y) }
  }

  /** image.Image: either an `*image.RGBA` or an image of any other concrete type. */
  datatype Image = FromRGBA(rgba: RGBA) | Other(bounds: Rectangle, data: PixelData)
  {
    function Bounds(): Rectangle
    {
      match this
      case FromRGBA(m) => m.Bounds()
      case Other(b, _) => b
    }
  }

  /**
   ConvertToRGBA: the image itself when it already is an `*image.RGBA`;
   otherwise a new RGBA image over `Rect(0, 0, b.Dx(), b.Dy())`. The pixels that
   `draw.Draw` copies into the new image are `fill`, since draw.Draw is not part
   of this model. For well-formed bounds the new origin is (0, 0) and width and
   height are kept; image.Rect swaps the corners of the bounds of an image whose
   Min lies beyond its Max, so there they are kept only up to sign.
   */
  function ConvertToRGBA(img: Image, fill: PixelData): (result: RGBA)
    ensures img.FromRGBA? ==> result == img.rgba
    ensures !img.FromRGBA? ==>
              WellFormed(result.Bounds()) && result.data == fill &&
              Dx(result.Bounds()) == Abs(Dx(img.Bounds())) && Dy(result.Bounds()) == Abs(Dy(img.Bounds()))
    ensures !img.FromRGBA? && WellFormed(img.Bounds()) ==>
              result.Bounds().min == Point(0, 0) &&
              Dx(result.Bounds()) == Dx(img.Bounds()) && Dy(result.Bounds()) == Dy(img.Bounds())
  {
    match img
    case FromRGBA(m) => m
    case Other(b, _) => RGBA(Rect(0, 0, Dx(b), Dy(b)), fill)
  }

  function Abs(n: int): nat { if n < 0 then -n else n }

  /** Normalising twice is normalising once. */
  lemma ConvertToRGBAIdempotent(img: Image, fill: PixelData, fill': PixelData)
    ensures ConvertToRGBA(FromRGBA(ConvertToRGBA(img, fill)), fill') == ConvertToRGBA(img, fill)
  {
  }
}
