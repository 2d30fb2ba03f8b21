/** The geometry of `Maker`: padding from the canvas size, the resize decision and the
    placement offset. The program computes the ratios in floating point and truncates with
    `int()`; here each ratio is an exact fraction and `int()` is truncation toward zero. */
module Geometry {
  import opened Wrappers
  import opened Shapes

  /** The padding ratios: 0.0425 of the width on each side, 0.15 of the height on top and
      0.085 of the height at the bottom (the bottom ratio was 0.125 in an earlier revision). */
  const SideNum := 425
  const SideDen := 10000
  const TopNum := 15
  const TopDen := 100
  const BottomNum := 85
  const BottomDen := 1000

  function Abs(x: int): nat {
    if x < 0 then -x else x
  }

  /** `q` is the exact quotient `n / d` of a positive divisor rounded toward zero: the floor
      for a non-negative dividend, the ceiling for a negative one. */
  predicate IsTruncQuotient(q: int, n: int, d: int)
    requires d > 0
  {
    if n >= 0 then 0 <= q && q * d <= n < q * d + d
    else q <= 0 && q * d - d < n <= q * d
  }

  /** Python's `int()` applied to the exact rational `n / d`; a negative divisor is moved to
      the dividend, which leaves the quotient unchanged. */
  function TruncDiv(n: int, d: int): (q: int)
    requires d != 0
    ensures d > 0 ==> IsTruncQuotient(q, n, d)
    ensures d < 0 ==> IsTruncQuotient(q, -n, -d)
  {
    if d < 0 then TruncDivPos(-n, -d) else TruncDivPos(n, d)
  }

  /** Truncating division by a positive divisor: Euclidean division of the magnitude, with
      the dividend's sign put back. */
  function TruncDivPos(n: int, d: int): (q: int)
    requires d > 0
    ensures IsTruncQuotient(q, n, d)
  {
    if n >= 0 then
      DivBounds(n, d);
      n / d
    else
      var a := -n / d;
      DivBounds(-n, d);
      assert (-a) * d == -(a * d);
      -a
  }

  /** Euclidean division of naturals brackets the dividend between consecutive multiples. */
  lemma DivBounds(n: nat, d: nat)
    requires d > 0
    ensures 0 <= (n / d) * d <= n < (n / d) * d + d
  {
  }

  /** `int(x * num / den)` for one padding side, `x` the canvas width or height. */
  function Scale(x: int, num: nat, den: nat): (r: int)
    requires den > 0
    ensures IsTruncQuotient(r, x * num, den)
  {
    TruncDiv(x * num, den)
  }

  /** `Maker.get_padding`: the four insets derived from the canvas box. */
  function GetPadding(background: Rect): (p: Rect)
    ensures p.left == p.right
    ensures IsTruncQuotient(p.left, background.right * SideNum, SideDen)
    ensures IsTruncQuotient(p.top, background.bottom * TopNum, TopDen)
    ensures IsTruncQuotient(p.bottom, background.bottom * BottomNum, BottomDen)
  {
    var left := Scale(background.right, SideNum, SideDen);
    var top := Scale(background.bottom, TopNum, TopDen);
    var right := Scale(background.right, SideNum, SideDen);
    var bottom := Scale(background.bottom, BottomNum, BottomDen);
    Rect(left, top, right, bottom)
  }

  /** The width left between the side paddings. */
  function SafeWidth(background: Rect, padding: Rect): int {
    background.right - padding.left - padding.right
  }

  /** `Maker.resize`, size part: `None` when the image already has the safe width, otherwise
      the box `(0, 0, safe, int(h * safe / w))` the image is resampled to. A zero-width image
      that does not already fit divides by zero. */
  function Resize(image: Rect, background: Rect, padding: Rect): (r: Result<Option<Rect>, Error>)
    ensures r == Success(None) <==> image.right == SafeWidth(background, padding)
    ensures r == Failure(DivisionByZero) <==> image.right != SafeWidth(background, padding) && image.right == 0
    ensures image.right != SafeWidth(background, padding) && image.right != 0 ==> r.Success? && r.value.Some?
    ensures r.Success? && r.value.Some? ==>
              && r.value.value.left == 0 && r.value.value.top == 0
              && r.value.value.right == SafeWidth(background, padding)
              && r.value.value.right != image.right
              && (image.right > 0 ==>
                    IsTruncQuotient(r.value.value.bottom, image.bottom * SafeWidth(background, padding), image.right))
              && (image.right < 0 ==>
                    IsTruncQuotient(r.value.value.bottom, -(image.bottom * SafeWidth(background, padding)), -image.right))
  {
    var safeWidth := SafeWidth(background, padding);
    if image.right == safeWidth then
      Success(None)
    else if image.right == 0 then
      Failure(DivisionByZero)
    else
      var safeHeight := TruncDiv(image.bottom * safeWidth, image.right);
      Success(Some(Rect(0, 0, safeWidth, safeHeight)))
  }

  /** Which image `make` pastes. */
  datatype Source = Original | ResizedCopy

  /** The selection in `Maker.make`: the resized image and box are used only when a resize
      happened and produced a box different from the original one. */
  function SelectImage(image: Rect, resized: Option<Rect>): (s: (Source, Rect))
    ensures s.0 == ResizedCopy ==> resized == Some(s.1) && s.1 != image
    ensures s.0 == Original ==> s.1 == image
    ensures resized.Some? ==> s.1 == resized.value
    ensures resized.None? ==> s == (Original, image)
  {
    var isResized := resized.Some? && NotEquals(image, resized);
    if isResized then (ResizedCopy, resized.value) else (Original, image)
  }

  /** `Maker.get_position`: the top-left corner at which the image is pasted. */
  function GetPosition(background: Rect, padding: Rect, position: Position, rect: Rect): (xy: (int, int))
    ensures xy.0 == padding.left
    ensures position == Top ==> xy.1 == padding.top
    ensures position == Center ==> xy.1 == background.bottom / 2 - rect.bottom / 2
    ensures position == Center ==> Abs(xy.1 - (background.bottom - xy.1 - rect.bottom)) <= 1
    ensures position == Bottom ==> xy.1 + rect.bottom + padding.bottom == background.bottom
  {
    var x := padding.left;
    var y :=
      match position
      case Top => padding.top
      // Python's `//`; Dafny's `/` agrees with it for a positive divisor.
      case Center => background.bottom / 2 - rect.bottom / 2
      case Bottom => background.bottom - padding.bottom - rect.bottom;
    (x, y)
  }

  /** For a canvas of non-negative size the insets are the floors of the exact products, all
      non-negative, and they never use up the canvas: left + right < W and top + bottom < H
      for a non-empty canvas, so the safe width is positive. */
  lemma PaddingFitsCanvas(background: Rect)
    requires background.right >= 0 && background.bottom >= 0
    ensures var p, w, h := GetPadding(background), background.right, background.bottom;
      && 0 <= p.left == p.right && 0 <= p.top && 0 <= p.bottom
      && p.left * SideDen <= w * SideNum < (p.left + 1) * SideDen
      && p.top * TopDen <= h * TopNum < (p.top + 1) * TopDen
      && p.bottom * BottomDen <= h * BottomNum < (p.bottom + 1) * BottomDen
      && (w > 0 ==> p.left + p.right < w && SafeWidth(background, p) > 0)
      && (h > 0 ==> p.top + p.bottom < h)
  {
  }

  /** The resized height keeps the aspect ratio up to truncation: it is the floor of
      `h * safe / w`, so it is less than one pixel below the exact value. */
  lemma ResizeAspect(image: Rect, background: Rect, padding: Rect, resized: Rect)
    requires image.bottom >= 0 && image.right > 0 && SafeWidth(background, padding) >= 0
    requires Resize(image, background, padding) == Success(Some(resized))
    ensures resized.bottom >= 0
    ensures resized.bottom * image.right <= image.bottom * resized.right < (resized.bottom + 1) * image.right
  {
  }

  /** How `make` uses the resize outcome: a box returned by `resize` always differs from the
      original one (its width differs), so the resized image is used exactly when a resize
      happened, and the original image and box otherwise. */
  lemma ResizeSelection(image: Rect, background: Rect, padding: Rect, resized: Option<Rect>)
    requires Resize(image, background, padding) == Success(resized)
    ensures resized.Some? ==> NotEquals(image, resized)
    ensures SelectImage(image, resized).0 == ResizedCopy <==> resized.Some?
    ensures SelectImage(image, resized).1 == if resized.Some? then resized.value else image
  {
  }
}
