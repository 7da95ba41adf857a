/**
 * Image sizes and the size arithmetic of Pillow's `Image.thumbnail`, as the
 * link-preview command uses it. Pixels, resampling and encoding are not
 * modelled: an image is known here only by its size.
 */
module Imaging {

  datatype Size = Size(width: nat, height: nat)

  /** The size of an image Pillow has decoded: both sides are at least one pixel. */
  type Dimensions = s: Size | s.width >= 1 && s.height >= 1 witness Size(1, 1)

  predicate FitsIn(s: Size, box: Size) {
    s.width <= box.width && s.height <= box.height
  }

  function Max(a: int, b: int): int { if a >= b then a else b }

  /**
   * The size `Image.thumbnail(box)` gives an image of size `src`
   * (`preserve_aspect_ratio` in Pillow). An image that already fits is left
   * alone. Otherwise, when `box.width / box.height >= src.width / src.height`
   * the height becomes `box.height` and the width is `box.height * aspect`
   * rounded to whichever of floor and ceiling gives the aspect closer to the
   * source's (floor on a tie); else the width becomes `box.width` and the
   * height is rounded the same way, judged by `box.width / n`. A rounded side
   * is never below 1. Pillow computes with floats; this computes the same
   * choices with exact integer cross-multiplication.
   */
  function Thumbnail(src: Dimensions, box: Dimensions): Dimensions {
    if box.width >= src.width && box.height >= src.height then src
    else if box.width * src.height >= box.height * src.width then
      // the height binds: width = round(box.height * src.width / src.height)
      Size(Max(Nearest(box.height * src.width, src.height), 1), box.height)
    else
      // the width binds: height = round(box.width * src.height / src.width)
      Size(box.width, Max(NearestByReciprocal(box.width * src.height, src.width), 1))
  }

  /** Of floor and ceiling of `exact / d`, the one closer to it; the floor on a tie. */
  function Nearest(exact: nat, d: nat): nat
    requires d > 0
  {
    var lo := exact / d;
    var hi := if lo * d == exact then lo else lo + 1;
    if exact - lo * d <= hi * d - exact then lo else hi
  }

  /**
   * Of floor and ceiling of `exact / d`, the one `n` that makes `box / n`
   * closer to the source's side; the floor on a tie or when it is 0.
   */
  function NearestByReciprocal(exact: nat, d: nat): nat
    requires d > 0
  {
    var lo := exact / d;
    var hi := if lo * d == exact then lo else lo + 1;
    if lo == 0 || (exact - lo * d) * hi <= (hi * d - exact) * lo then lo else hi
  }

  lemma NearestIsFloorOrCeiling(exact: nat, d: nat)
    requires d > 0
    ensures var lo := exact / d;
            && (Nearest(exact, d) == lo || (Nearest(exact, d) == lo + 1 && lo * d != exact))
            && (NearestByReciprocal(exact, d) == lo || (NearestByReciprocal(exact, d) == lo + 1 && lo * d != exact))
  {
  }

  // Arithmetic facts the thumbnail proof needs.

  lemma DivBounds(a: nat, b: nat)
    requires b > 0
    ensures (a / b) * b <= a < (a / b + 1) * b
  {
  }

  lemma MulCancelLe(a: int, b: int, c: int)
    requires c > 0 && a * c <= b * c
    ensures a <= b
  {
  }

  lemma MulCancelLt(a: int, b: int, c: int)
    requires c > 0 && a * c < b * c
    ensures a < b
  {
  }

  lemma MulMonotone(a: int, b: int, c: int)
    requires c >= 0 && a <= b
    ensures a * c <= b * c
  {
  }

  /** One side of `r` is within one pixel of the size the exact aspect ratio of `src` gives it. */
  predicate AspectKept(src: Size, r: Size) {
    || (r.width - 1) * src.height <= r.height * src.width <= (r.width + 1) * src.height
    || (r.height - 1) * src.width <= r.width * src.height <= (r.height + 1) * src.width
  }

  /**
   * Rounding `exact / d` to `lo` or `hi` (floor and ceiling) stays within one
   * unit of the exact quotient and below any bound the quotient is below.
   */
  lemma RoundedQuotient(exact: nat, d: nat, bound: nat)
    requires d > 0 && exact <= bound * d
    ensures var lo := exact / d;
            var hi := if lo * d == exact then lo else lo + 1;
            && (lo - 1) * d <= exact <= (lo + 1) * d
            && (hi - 1) * d <= exact <= (hi + 1) * d
            && lo <= hi <= bound
  {
    var lo := exact / d;
    DivBounds(exact, d);
    if lo * d == exact {
      MulCancelLe(lo, bound, d);
    } else {
      MulCancelLt(lo, bound, d);
    }
  }

  /** The case where the height binds: the source is taller than the box. */
  lemma {:induction false} HeightBinds(src: Dimensions, box: Dimensions)
    requires !FitsIn(src, box) && box.width * src.height >= box.height * src.width
    ensures src.height > box.height
    ensures box.height * src.width <= box.width * src.height
    ensures box.height * src.width < src.width * src.height
  {
    var w, h, bw, bh := src.width, src.height, box.width, box.height;
    if h <= bh {
      MulMonotone(bw + 1, w, bh);
      MulMonotone(h, bh, bw);
      MulCancelLt(bh, h, bw);
    }
    MulMonotone(bh + 1, h, w);
  }

  /** The case where the width binds: the source is wider than the box. */
  lemma {:induction false} WidthBinds(src: Dimensions, box: Dimensions)
    requires !FitsIn(src, box) && box.width * src.height < box.height * src.width
    ensures src.width > box.width
    ensures box.width * src.height <= box.height * src.width
    ensures box.width * src.height < src.height * src.width
  {
    var w, h, bw, bh := src.width, src.height, box.width, box.height;
    if w <= bw {
      MulMonotone(bh + 1, h, bw);
      MulMonotone(w, bw, bh);
      MulCancelLt(bw, w, bh);
    }
    MulMonotone(bw + 1, w, h);
  }

  /**
   * Either rounding of `exact / d`, raised to at least 1, stays within one
   * unit of the exact quotient and below any bound of at least 1 the
   * quotient is below.
   */
  lemma RoundedWithin(exact: nat, d: nat, lo: nat, x: int, bound: nat)
    requires d > 0 && bound >= 1 && exact <= bound * d && lo == exact / d
    requires x == lo || (x == lo + 1 && lo * d != exact)
    ensures (Max(x, 1) - 1) * d <= exact <= (Max(x, 1) + 1) * d
    ensures Max(x, 1) <= bound
  {
    RoundedQuotient(exact, d, bound);
    if x == 0 {
      DivBounds(exact, d);
    }
  }

  /** When the height binds, the width is the rounded exact width. */
  lemma {:induction false} HeightBindsResult(src: Dimensions, box: Dimensions)
    requires !FitsIn(src, box) && box.width * src.height >= box.height * src.width
    ensures var r := Thumbnail(src, box);
            && r.height == box.height < src.height
            && r.width <= box.width && r.width <= src.width
            && (r.width - 1) * src.height <= box.height * src.width <= (r.width + 1) * src.height
  {
    var w, h, bw, bh := src.width, src.height, box.width, box.height;
    var exact := bh * w;
    HeightBinds(src, box);
    NearestIsFloorOrCeiling(exact, h);
    RoundedWithin(exact, h, exact / h, Nearest(exact, h), bw);
    RoundedWithin(exact, h, exact / h, Nearest(exact, h), w);
  }

  /** When the width binds, the height is the rounded exact height. */
  lemma {:induction false} WidthBindsResult(src: Dimensions, box: Dimensions)
    requires !FitsIn(src, box) && box.width * src.height < box.height * src.width
    ensures var r := Thumbnail(src, box);
            && r.width == box.width < src.width
            && r.height <= box.height && r.height <= src.height
            && (r.height - 1) * src.width <= box.width * src.height <= (r.height + 1) * src.width
  {
    var w, h, bw, bh := src.width, src.height, box.width, box.height;
    var exact := bw * h;
    WidthBinds(src, box);
    NearestIsFloorOrCeiling(exact, w);
    RoundedWithin(exact, w, exact / w, NearestByReciprocal(exact, w), bh);
    RoundedWithin(exact, w, exact / w, NearestByReciprocal(exact, w), h);
  }

  /**
   * `thumbnail` shrinks to fit: the result fits in the box, is never larger
   * than the source on either side, has a side equal to the box's unless the
   * source already fitted (then it is the source), and keeps the aspect ratio
   * to within one pixel.
   */
  lemma ThumbnailShrinksToFit(src: Dimensions, box: Dimensions)
    ensures FitsIn(Thumbnail(src, box), box)
    ensures FitsIn(Thumbnail(src, box), src)
    ensures FitsIn(src, box) ==> Thumbnail(src, box) == src
    ensures !FitsIn(src, box) ==> Thumbnail(src, box).width == box.width || Thumbnail(src, box).height == box.height
    ensures AspectKept(src, Thumbnail(src, box))
  {
    if FitsIn(src, box) {
    } else if box.width * src.height >= box.height * src.width {
      HeightBindsResult(src, box);
    } else {
      WidthBindsResult(src, box);
    }
  }
}
