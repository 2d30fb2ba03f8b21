# quiz-maker geometry and corner mask, modelled in Dafny

The program places a photo on a fixed-size solid canvas (1440 x 2898 by default) for a
"story" image: it derives padding from the canvas size, resizes the photo to the width left
between the side paddings, picks a vertical offset (top, centre or bottom) and pastes the
photo through an alpha mask whose four corners are cut from a disk, giving rounded corners.

This project models the `Maker` class of `QuizMaker.py` as pure functions:

- `wrappers.dfy` — `Option`, `Result` and the two exceptions the model raises
  (`ZeroDivisionError` from the width ratio, `ValueError` from a negative image size). The
  imaging library's rejection of an empty resize target is not modelled (see "## Left out").
- `shapes.dfy` — the `Position` enumeration and the `Rect` value type with `__eq__`/`__ne__`.
  The other operand of `__eq__` is `Option<Rect>`; `None` stands for any non-`Rect` object.
- `geometry.dfy` — padding (`get_padding`), the resize decision (`resize`), the image
  selection in `make`, and the offset (`get_position`). `int()` of a float product is
  modelled as the exact rational quotient truncated toward zero (`TruncDiv`). For the
  non-negative sizes the program works with, this is the floor.
- `mask.dfy` — `get_corners_mask`. Buffers are `seq<seq<Byte>>` indexed `[y][x]`. The disk
  drawn by the imaging library is an abstract `2r x 2r` input grid. A `Tile` is a crop box
  of the disk together with the corner it is pasted at. The buffer is filled with `fill`,
  then the four `r x r` tiles are pasted in the program's order (`PasteAll`). Each paste is
  clipped to the buffer, as the imaging library's paste clips. `PasteAll` is proved to
  leave every pixel with the value of the last tile covering it (`LastCover`).
  `MaskPixel` is a pixel-wise reference definition, and `CornersMask` is proved equal to it
  pixel by pixel.
- `maker.dfy` — the `Maker` record, the geometric part of `__init__`, and `make` up to the
  final blended paste, as one `Result`-valued pipeline.

Facts about the code that the model keeps:

- `get_padding` truncates with `int()`: on the default canvas the top padding is 434
  (2898 x 0.15 = 434.7).
- `get_corners_mask` does no radius validation. A radius above half the smaller side
  makes the tiles overlap, and the later paste wins (`TopRightWinsOverlap`,
  `OversizedRadiusAccepted`).
- A zero-width image is not rejected up front. It raises a division by zero in `resize`,
  and only when its width differs from the safe width.

## Model

| member | source | states |
|---|---|---|
| Shapes.Value | QuizMaker.py:9-11 | each position carries an integer value in 1..3 (TOP = 1, CENTER = 2, BOTTOM = 3); `ValueRoundTrip` shows the values are distinct and `FromValue` inverts them |
| Shapes.FromValue | QuizMaker.py:6-11 | looking a position up by value succeeds exactly for 1, 2, 3 and inverts the value map |
| Shapes.ValueRoundTrip | QuizMaker.py:6-11 | the three positions have distinct values (`@unique`) and lookup by value returns the same position |
| Shapes.Equals | QuizMaker.py:22-24 | two rects are equal exactly when the other operand is a rect with all four fields equal, i.e. structural equality |
| Shapes.NotEquals | QuizMaker.py:26-27 | `!=` holds exactly when the other operand is not a rect or some field differs, the exact negation of `==` |
| Geometry.TruncDiv | QuizMaker.py:85-88 | `int()` of an exact quotient: magnitude is the floor of the magnitude, sign is the sign of the quotient (truncation toward zero) |
| Geometry.GetPadding | QuizMaker.py:84-90 | left and right are identical; each inset is the truncation of the canvas side times its ratio (0.0425 W, 0.15 H, 0.085 H) |
| Geometry.PaddingFitsCanvas | QuizMaker.py:84-90 | for a non-negative canvas all insets are the floors of the exact products, non-negative, and left + right < W, top + bottom < H for a non-empty canvas, so the safe width is positive |
| Geometry.Resize | QuizMaker.py:73-80 | no resize exactly when the image width equals the safe width; division by zero exactly for a zero-width image that does not fit; any other image (non-zero width, not the safe width) gets the box (0, 0, safe, truncated h * safe / w), whose width differs from the image's |
| Geometry.ResizeAspect | QuizMaker.py:77-78 | the resized height is the floor of h * safe / w: within one pixel below the exact aspect-preserving height |
| Geometry.SelectImage | QuizMaker.py:62-65 | the resized copy is chosen only for a resize result different from the original box; the chosen box is the resize result whenever there is one, and the original box otherwise |
| Geometry.ResizeSelection | QuizMaker.py:62-65 | with the box `resize` returns, `make` uses the resized image and box exactly when a resize happened, because a returned box always differs from the original |
| Geometry.GetPosition | QuizMaker.py:92-100 | x is the left padding; Top puts y at the top padding; Center puts y at the floor half of the canvas height minus the floor half of the image height, so the top and bottom margins differ by at most one pixel; Bottom leaves exactly the bottom padding below the image |
| Mask.Filled | QuizMaker.py:106 | a w x h buffer whose every pixel is the fill value |
| Mask.Paste | QuizMaker.py:107-110 | pasting a cropped tile keeps the buffer's size, gives each covered pixel the crop-box pixel at the same offset (clipped to the buffer) and keeps every other pixel |
| Mask.Corners | QuizMaker.py:107-110 | there are four `r x r` crop boxes of the disk in paste order; tile i takes the quadrant in column i / 2 and row i % 2 of the disk and goes to the matching corner of the box: top-left, bottom-left, top-right, bottom-right |
| MaskFacts.CornerCropsSplitDisk | QuizMaker.py:107-110 | every disk pixel lies in the crop box of exactly one corner tile, so the four crops split the disk into its quadrants |
| Mask.LastCover | QuizMaker.py:107-110 | the index found is the last tile covering the pixel: it covers it, no later tile does, and -1 means no tile covers it |
| Mask.PasteAll | QuizMaker.py:106-110 | pasting tiles in order leaves each pixel with the value of the last tile covering it, or its original value when none does |
| Mask.CornersProvenance | QuizMaker.py:106-110 | the fill followed by the four ordered pastes agrees pixel by pixel with the reference `MaskPixel` |
| Mask.CornersMask | QuizMaker.py:102-111 | fails only for a negative radius or side; otherwise has exactly the rect's size, every pixel equals the reference `MaskPixel` (last covering tile wins), and every pixel outside the four corner tiles is `fill` |
| MaskFacts.BottomRightTile | QuizMaker.py:110 | the bottom-right tile always holds the disk quadrant [r,2r) x [r,2r), whatever the radius |
| MaskFacts.CornerTiles | QuizMaker.py:107-109 | without overlap, the top-left, bottom-left and top-right tiles hold the quadrants [0,r)x[0,r), [0,r)x[r,2r) and [r,2r)x[0,r) |
| MaskFacts.TopRightWinsOverlap | QuizMaker.py:107-109 | where the top tiles overlap, the top-right quadrant (pasted later) wins over the top-left one |
| MaskFacts.MaskValues | QuizMaker.py:103-111 | if every disk pixel is 0 or `fill`, so is every mask pixel |
| MaskFacts.SquareMask | QuizMaker.py:102-111 | a 200 x 200 mask of radius 50 is opaque at the centre and edge midpoints and transparent at the four outer corners for a disk with transparent corners |
| MaskFacts.OversizedRadiusAccepted | QuizMaker.py:102-111 | radius 101 on a 200 x 150 box yields a 200 x 150 mask rather than an error, with the bottom-left tile overwriting the top-left one on shared rows |
| Maker.NewMaker | QuizMaker.py:54-58 | construction fails exactly for a negative canvas side; otherwise boxes are anchored at the origin, padding is derived from the canvas and never uses up a non-empty canvas |
| Maker.Make | QuizMaker.py:61-68 | a successful `make` produces a box spanning exactly the safe width at x = left padding; the resized copy exactly when the width differed, with the box `resize` returned (so its height follows `ResizeAspect`), and the original box otherwise; the offset `get_position` gives for that box (y = top padding for Top, bottom padding left below for Bottom); and a mask of exactly the box's size whose every pixel equals the reference `MaskPixel` for the given radius |
| Maker.MakeOutcome | QuizMaker.py:62-67 | within the model (which leaves out the imaging library's rejection of an empty resize target), `make` on a constructed maker fails exactly for a zero-width image needing a resize or a negative radius, and the pasted box never has a negative side |
| Maker.DefaultCanvas | QuizMaker.py:84-100 | the default 1440 x 2898 canvas has padding (61, 434, 61, 246) and safe width 1318; a 2000-high image goes to (61, 652) at the bottom and (61, 449) in the centre; a 3000-high image at the bottom gets the unchecked negative y = -348 |
| Maker.DefaultCanvasResize | QuizMaker.py:73-80 | a 1080 x 1920 image on the default canvas is resized to 1318 x 2343 and pasted at (61, 309) at the bottom |

## Left out

- Interactive prompts and the parsing of canvas size, tone, position and radius (lines
  42-53, 66): user I/O. The parsed values are parameters of `NewMaker` and `Make`.
- File checks, `Image.open`, `export`, `close` and the `__main__` loop (lines 37-40, 56,
  113-128): file I/O and resource release.
- Floating point. The ratios are exact fractions, and the resized height is the truncation
  of the exact `h * safe / w`. IEEE rounding of `W * .0425`, `H * .15`, `H * .085` and
  `h * (safe / w)` could land just below an exact integer and truncate one lower.
- The disk rasterisation (`draw.ellipse`, line 105) is an abstract input grid.
  `MaskValues` and `SquareMask` take its properties as hypotheses.
- The LANCZOS resampling of pixel data (line 79): only the target size is modelled.
  The imaging library raises `ValueError` for an empty target size (a 5000 x 1 image on
  the default canvas gets the target 1318 x 0); the model does not raise it and returns
  that box.
- The alpha-blended `background.paste(image, pos, mask)` (line 68): its per-channel
  rounding is internal to the imaging library. `Make` stops at the values handed to it.
  Its size-match requirement is stated as the mask having the pasted box's size.
- The background colour (lines 32-33, 54) only fills the canvas pixels, which are not
  modelled.
