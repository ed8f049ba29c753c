/**
 Sums of a per-point term over the points a row-major walk of a rectangle
 visits, as `Compare` walks them: rows Min.Y .. Max.Y - 1, and in each row the
 columns Min.X .. Max.X - 1.
 */
module GridSums {
  import opened Images

  /** The terms of the points (x0, y) .. (x - 1, y). */
  function RowSum(t: (int, int) -> nat, y: int, x0: int, x: int): nat
    decreases x - x0
  {
    if x <= x0 then 0 else RowSum(t, y, x0, x - 1) + t(x - 1, y)
  }

  /** The terms of the whole rows b.Min.Y .. y - 1 of the rectangle b. */
  function GridSum(t: (int, int) -> nat, b: Rectangle, y: int): nat
    decreases y - b.min.y
  {
    if y <= b.min.y then 0 else GridSum(t, b, y - 1) + RowSum(t, y - 1, b.min.x, b.max.x)
  }

  /** The terms of every point with Min <= (x, y) < Max. */
  function RectSum(t: (int, int) -> nat, b: Rectangle): nat
  {
    GridSum(t, b, b.max.y)
  }

  predicate InRect(b: Rectangle, x: int, y: int)
  {
    b.min.x <= x < b.max.x && b.min.y <= y < b.max.y
  }

  /** One more point at the end of a row. */
  lemma RowSumStep(t: (int, int) -> nat, y: int, x0: int, x: int)
    requires x0 <= x
    ensures RowSum(t, y, x0, x + 1) == RowSum(t, y, x0, x) + t(x, y)
  {
  }

  /** One more whole row at the bottom of the rectangle. */
  lemma GridSumStep(t: (int, int) -> nat, b: Rectangle, y: int)
    requires b.min.y <= y
    ensures GridSum(t, b, y + 1) == GridSum(t, b, y) + RowSum(t, y, b.min.x, b.max.x)
  {
  }

  // ----- Constant terms -----

  lemma {:induction false} RowSumConst(t: (int, int) -> nat, y: int, x0: int, x: int, c: nat)
    requires x0 <= x
    requires forall x' :: x0 <= x' < x ==> t(x', y) == c
    ensures RowSum(t, y, x0, x) == (x - x0) * c
    decreases x - x0
  {
    if x > x0 {
      RowSumConst(t, y, x0, x - 1, c);
      assert (x - 1 - x0) * c + c == (x - x0) * c;
    }
  }

  lemma {:induction false} GridSumConst(t: (int, int) -> nat, b: Rectangle, y: int, w: nat)
    requires forall y' :: b.min.y <= y' < b.max.y ==> RowSum(t, y', b.min.x, b.max.x) == w
    requires b.min.y <= y <= b.max.y
    ensures GridSum(t, b, y) == (y - b.min.y) * w
    decreases y - b.min.y
  {
    if y > b.min.y {
      GridSumConst(t, b, y - 1, w);
      assert (y - 1 - b.min.y) * w + w == (y - b.min.y) * w;
    }
  }

  /** Terms that are all c inside the rectangle sum to c per point. */
  lemma RectSumConst(t: (int, int) -> nat, b: Rectangle, c: nat)
    requires forall x, y :: InRect(b, x, y) ==> t(x, y) == c
    ensures RectSum(t, b) == PixelCount(b) * c
  {
    if b.min.y <= b.max.y {
      var w, h := Width(b), Height(b);
      forall y' | b.min.y <= y' < b.max.y
        ensures RowSum(t, y', b.min.x, b.max.x) == w * c
      {
        if b.min.x <= b.max.x {
          RowSumConst(t, y', b.min.x, b.max.x, c);
        }
      }
      GridSumConst(t, b, b.max.y, w * c);
      Regroup(h, w, c);
    }
  }

  lemma Regroup(h: int, w: int, c: int)
    ensures h * (w * c) == (w * h) * c
  {
  }

  // ----- Comparing two sums point by point -----

  lemma {:induction false} RowSumLe(s: (int, int) -> nat, t: (int, int) -> nat, y: int, x0: int, x: int)
    requires forall x' :: x0 <= x' < x ==> s(x', y) <= t(x', y)
    ensures RowSum(s, y, x0, x) <= RowSum(t, y, x0, x)
    decreases x - x0
  {
    if x > x0 {
      RowSumLe(s, t, y, x0, x - 1);
    }
  }

  lemma {:induction false} GridSumLe(s: (int, int) -> nat, t: (int, int) -> nat, b: Rectangle, y: int)
    requires forall x', y' :: InRect(b, x', y') ==> s(x', y') <= t(x', y')
    requires y <= b.max.y
    ensures GridSum(s, b, y) <= GridSum(t, b, y)
    decreases y - b.min.y
  {
    if y > b.min.y {
      GridSumLe(s, t, b, y - 1);
      RowSumLe(s, t, y - 1, b.min.x, b.max.x);
    }
  }

  /** Pointwise smaller terms inside the rectangle give a smaller sum. */
  lemma RectSumLe(s: (int, int) -> nat, t: (int, int) -> nat, b: Rectangle)
    requires forall x, y :: InRect(b, x, y) ==> s(x, y) <= t(x, y)
    ensures RectSum(s, b) <= RectSum(t, b)
  {
    GridSumLe(s, t, b, b.max.y);
  }

  /** Terms that agree inside the rectangle give the same sum. */
  lemma RectSumEq(s: (int, int) -> nat, t: (int, int) -> nat, b: Rectangle)
    requires forall x, y :: InRect(b, x, y) ==> s(x, y) == t(x, y)
    ensures RectSum(s, b) == RectSum(t, b)
  {
    RectSumLe(s, t, b);
    RectSumLe(t, s, b);
  }

  /** A sum of terms of at most m is at most m per point. */
  lemma RectSumBound(t: (int, int) -> nat, b: Rectangle, m: nat)
    requires forall x, y :: InRect(b, x, y) ==> t(x, y) <= m
    ensures RectSum(t, b) <= PixelCount(b) * m
  {
    var top: (int, int) -> nat := (x, y) => m;
    RectSumLe(t, top, b);
    RectSumConst(top, b, m);
  }
}
