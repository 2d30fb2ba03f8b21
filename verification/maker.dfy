/** `Maker` as a value: the canvas box, the image box, the padding derived from the canvas and
    the chosen position, and `make` as a pure pipeline from those to what gets pasted. */
module Maker {
  import opened Wrappers
  import opened Shapes
  import opened Geometry
  import opened Mask

  /** `Maker.BGSIZE`, the default canvas size. */
  const DefaultWidth := 1440
  const DefaultHeight := 2898

  /** The corner radius offered when the user enters nothing. */
  const DefaultRadius := 50

  datatype Maker = Maker(background: Rect, image: Rect, padding: Rect, position: Position)

  /** The shape every constructed `Maker` has: boxes anchored at the origin with
      non-negative sides, and the padding computed from the canvas. */
  predicate Valid(mk: Maker) {
    && mk.background.left == 0 && mk.background.top == 0
    && mk.background.right >= 0 && mk.background.bottom >= 0
    && mk.image.left == 0 && mk.image.top == 0
    && mk.image.right >= 0 && mk.image.bottom >= 0
    && mk.padding == GetPadding(mk.background)
  }

  /** The geometric part of `Maker.__init__` for a canvas of `width x height` and an image of
      `imageWidth x imageHeight`; creating the canvas fails for a negative side. */
  function NewMaker(width: int, height: int, imageWidth: nat, imageHeight: nat, position: Position): (r: Result<Maker, Error>)
    ensures r.Failure? <==> width < 0 || height < 0
    ensures r.Success? ==> Valid(r.value) && r.value.position == position
    ensures r.Success? ==> r.value.background.right == width && r.value.background.bottom == height
    ensures r.Success? ==> r.value.image.right == imageWidth && r.value.image.bottom == imageHeight
    ensures r.Success? && width > 0 ==> r.value.padding.left + r.value.padding.right < width
    ensures r.Success? && height > 0 ==> r.value.padding.top + r.value.padding.bottom < height
  {
    if width < 0 || height < 0 then
      Failure(NegativeSize)
    else
      var background := Rect(0, 0, width, height);
      PaddingFitsCanvas(background);
      Success(Maker(background, Rect(0, 0, imageWidth, imageHeight), GetPadding(background), position))
  }

  /** What `make` hands to the final paste: which image, its box, the offset and the mask. */
  datatype Placement = Placement(source: Source, rect: Rect, offset: (int, int), mask: Grid)

  /** `Maker.make` up to the alpha-blended paste: resize decision, image selection, corner
      mask for the chosen box and placement offset, failing where the program raises. */
  function Make(mk: Maker, radius: int, disk: Grid): (r: Result<Placement, Error>)
    requires radius >= 0 ==> IsGrid(disk, 2 * radius, 2 * radius)
    ensures r.Success? ==> IsGrid(r.value.mask, r.value.rect.right, r.value.rect.bottom)
    ensures r.Success? ==> r.value.rect.right == SafeWidth(mk.background, mk.padding)
    ensures r.Success? ==> r.value.offset.0 + r.value.rect.right + mk.padding.right == mk.background.right
    ensures r.Success? ==> (r.value.source == ResizedCopy <==> mk.image.right != SafeWidth(mk.background, mk.padding))
    ensures r.Success? && r.value.source == Original ==> r.value.rect == mk.image
    ensures r.Success? && mk.position == Bottom ==>
              r.value.offset.1 + r.value.rect.bottom + mk.padding.bottom == mk.background.bottom
    ensures r.Success? && mk.position == Top ==> r.value.offset.1 == mk.padding.top
    ensures r.Success? ==> r.value.offset == GetPosition(mk.background, mk.padding, mk.position, r.value.rect)
    ensures r.Success? && r.value.source == ResizedCopy ==>
              Resize(mk.image, mk.background, mk.padding) == Success(Some(r.value.rect))
    ensures r.Success? ==> radius >= 0
    ensures r.Success? ==>
              forall y, x :: 0 <= y < r.value.rect.bottom && 0 <= x < r.value.rect.right ==>
                r.value.mask[y][x] == MaskPixel(r.value.rect.right, r.value.rect.bottom, radius, disk, Opaque, x, y)
  {
    var resized :- Resize(mk.image, mk.background, mk.padding);
    var (source, rect) := SelectImage(mk.image, resized);
    var mask :- CornersMask(rect, radius, disk, Opaque);
    Success(Placement(source, rect, GetPosition(mk.background, mk.padding, mk.position, rect), mask))
  }

  /** For a constructed `Maker`, `make` fails exactly when a zero-width image would need a
      resize (division by zero) or the radius is negative (a negative disk size); the box it
      pastes never has a negative side. */
  lemma MakeOutcome(mk: Maker, radius: int, disk: Grid)
    requires Valid(mk)
    requires radius >= 0 ==> IsGrid(disk, 2 * radius, 2 * radius)
    ensures Make(mk, radius, disk).Failure? <==>
              (mk.image.right == 0 && SafeWidth(mk.background, mk.padding) != 0) || radius < 0
    ensures Make(mk, radius, disk).Success? ==>
              Make(mk, radius, disk).value.rect.right >= 0 && Make(mk, radius, disk).value.rect.bottom >= 0
  {
  }

  /** The default canvas: 1440 x 2898 gives padding (61, 434, 61, 246) and a safe width of
      1318; a 2000-pixel-high image is then pasted at (61, 652) at the bottom and at (61, 449)
      in the centre, while a 3000-pixel-high one at the bottom gets the unchecked negative
      offset y = -348. */
  lemma DefaultCanvas()
    ensures GetPadding(Rect(0, 0, DefaultWidth, DefaultHeight)) == Rect(61, 434, 61, 246)
    ensures SafeWidth(Rect(0, 0, DefaultWidth, DefaultHeight), Rect(61, 434, 61, 246)) == 1318
    ensures GetPosition(Rect(0, 0, DefaultWidth, DefaultHeight), Rect(61, 434, 61, 246), Bottom, Rect(0, 0, 1318, 2000))
            == (61, 652)
    ensures GetPosition(Rect(0, 0, DefaultWidth, DefaultHeight), Rect(61, 434, 61, 246), Center, Rect(0, 0, 1318, 2000))
            == (61, 449)
    ensures GetPosition(Rect(0, 0, DefaultWidth, DefaultHeight), Rect(61, 434, 61, 246), Bottom, Rect(0, 0, 1318, 3000))
            == (61, -348)
  {
  }

  /** A 1080 x 1920 image on the default canvas is resized to 1318 x 2343 and, at the bottom,
      pasted at (61, 309). */
  lemma DefaultCanvasResize(disk: Grid)
    requires IsGrid(disk, 2 * DefaultRadius, 2 * DefaultRadius)
    ensures NewMaker(DefaultWidth, DefaultHeight, 1080, 1920, Bottom).Success?
    ensures Make(NewMaker(DefaultWidth, DefaultHeight, 1080, 1920, Bottom).value, DefaultRadius, disk).Success?
    ensures var p := Make(NewMaker(DefaultWidth, DefaultHeight, 1080, 1920, Bottom).value, DefaultRadius, disk).value;
      p.source == ResizedCopy && p.rect == Rect(0, 0, 1318, 2343) && p.offset == (61, 309)
  {
    DefaultCanvas();
  }
}
