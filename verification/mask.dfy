/** `Maker.get_corners_mask`: a single-channel buffer of the rectangle's size, opaque
    everywhere except the four corner tiles, which are copied from the quadrants of a disk.
    Buffers are rows of pixels, `g[y][x]`. The disk itself is rasterised by the imaging
    library and enters the model as an abstract `2r x 2r` grid. */
module Mask {
  import opened Wrappers
  import opened Shapes

  /** One 8-bit pixel of an `L`-mode image. */
  type Byte = x: int | 0 <= x < 256

  type Grid = seq<seq<Byte>>

  /** The default `fill` of the mask: fully opaque. */
  const Opaque: Byte := 255

  /** `g` has `h` rows of `w` pixels each. */
  predicate IsGrid(g: Grid, w: int, h: int) {
    |g| == h && forall y :: 0 <= y < h ==> |g[y]| == w
  }

  /** `(x, y)` lies in the `tw x th` tile whose top-left corner is `(ox, oy)`. */
  predicate InTile(x: int, y: int, ox: int, oy: int, tw: int, th: int) {
    ox <= x < ox + tw && oy <= y < oy + th
  }

  /** `Image.new('L', (w, h), v)`. */
  function Filled(w: nat, h: nat, v: Byte): (g: Grid)
    ensures IsGrid(g, w, h)
    ensures forall y, x :: 0 <= y < h && 0 <= x < w ==> g[y][x] == v
  {
    seq(h, _ => seq(w, _ => v))
  }

  /** `src.crop((sx, sy, sx + w, sy + h))` pasted with its top-left corner at `(x, y)`. */
  datatype Tile = Tile(src: Grid, sx: nat, sy: nat, w: nat, h: nat, x: int, y: int)

  /** The crop box lies inside the source image. */
  predicate ValidTile(t: Tile) {
    && t.sy + t.h <= |t.src|
    && forall row :: t.sy <= row < t.sy + t.h ==> t.sx + t.w <= |t.src[row]|
  }

  /** The pasted tile `t` covers pixel `(x, y)`. */
  predicate Covers(t: Tile, x: int, y: int) {
    InTile(x, y, t.x, t.y, t.w, t.h)
  }

  /** The value the pasted tile `t` gives a pixel `(x, y)` it covers: the source pixel at the
      same offset from the crop box's corner. */
  function TilePixel(t: Tile, x: int, y: int): Byte
    requires ValidTile(t) && Covers(t, x, y)
  {
    t.src[y - t.y + t.sy][x - t.x + t.sx]
  }

  /** `base.paste(tile, (x, y))` on a `w x h` base: the part of the tile that falls inside
      the base replaces the base's pixels there, the rest of the tile is clipped away, and
      every other base pixel is kept. */
  function Paste(base: Grid, w: nat, h: nat, t: Tile): (g: Grid)
    requires IsGrid(base, w, h) && ValidTile(t)
    ensures IsGrid(g, w, h)
    ensures forall y, x :: 0 <= y < h && 0 <= x < w && Covers(t, x, y) ==> g[y][x] == TilePixel(t, x, y)
    ensures forall y, x :: 0 <= y < h && 0 <= x < w && !Covers(t, x, y) ==> g[y][x] == base[y][x]
  {
    seq(h, y requires 0 <= y < h =>
      seq(w, x requires 0 <= x < w =>
        if Covers(t, x, y) then TilePixel(t, x, y) else base[y][x]))
  }

  /** Every tile's crop box lies inside its source image. */
  predicate ValidTiles(tiles: seq<Tile>) {
    forall i :: 0 <= i < |tiles| ==> ValidTile(tiles[i])
  }

  /** The index of the last tile covering `(x, y)`, or -1 when none does. */
  function LastCover(tiles: seq<Tile>, x: int, y: int): (k: int)
    ensures -1 <= k < |tiles|
    ensures k == -1 <==> forall j :: 0 <= j < |tiles| ==> !Covers(tiles[j], x, y)
    ensures k >= 0 ==> Covers(tiles[k], x, y) && forall j :: k < j < |tiles| ==> !Covers(tiles[j], x, y)
    decreases |tiles|
  {
    if |tiles| == 0 then -1
    else if Covers(tiles[|tiles| - 1], x, y) then |tiles| - 1
    else LastCover(tiles[..|tiles| - 1], x, y)
  }

  /** Pastes `tiles` onto `base` one after the other, in order. A pixel no tile covers keeps
      its base value; any other pixel has the value of the LAST tile covering it. */
  function PasteAll(base: Grid, w: nat, h: nat, tiles: seq<Tile>): (g: Grid)
    requires IsGrid(base, w, h) && ValidTiles(tiles)
    ensures IsGrid(g, w, h)
    ensures forall y, x :: 0 <= y < h && 0 <= x < w ==>
              g[y][x] == if LastCover(tiles, x, y) < 0 then base[y][x] else TilePixel(tiles[LastCover(tiles, x, y)], x, y)
    decreases |tiles|
  {
    if |tiles| == 0 then
      base
    else
      var t := tiles[|tiles| - 1];
      assert ValidTile(t);
      Paste(PasteAll(base, w, h, tiles[..|tiles| - 1]), w, h, t)
  }

  /** Reference definition of one mask pixel, independent of the paste sequence: a pixel
      takes its value from the LAST corner tile that covers it (bottom-right, then top-right,
      then bottom-left, then top-left), and is `fill` when no tile covers it. */
  function MaskPixel(w: nat, h: nat, r: nat, disk: Grid, fill: Byte, x: nat, y: nat): Byte
    requires IsGrid(disk, 2 * r, 2 * r)
    requires x < w && y < h
  {
    if InTile(x, y, w - r, h - r, r, r) then disk[y - (h - r) + r][x - (w - r) + r]
    else if InTile(x, y, w - r, 0, r, r) then disk[y][x - (w - r) + r]
    else if InTile(x, y, 0, h - r, r, r) then disk[y - (h - r) + r][x]
    else if InTile(x, y, 0, 0, r, r) then disk[y][x]
    else fill
  }

  /** `(x, y)` lies in one of the four `r x r` corner tiles of a `w x h` buffer. */
  predicate InCorner(w: int, h: int, r: int, x: int, y: int) {
    || InTile(x, y, 0, 0, r, r)
    || InTile(x, y, 0, h - r, r, r)
    || InTile(x, y, w - r, 0, r, r)
    || InTile(x, y, w - r, h - r, r, r)
  }

  /** The four quadrant crops of the disk and where they go, in the order they are pasted:
      top-left, bottom-left, top-right, bottom-right. Tile `i` crops the quadrant in column
      `i / 2` and row `i % 2` of the disk and is pasted at the matching corner of the box. */
  function Corners(w: nat, h: nat, r: nat, disk: Grid): (tiles: seq<Tile>)
    requires IsGrid(disk, 2 * r, 2 * r)
    ensures |tiles| == 4 && forall i :: 0 <= i < 4 ==> ValidTile(tiles[i])
    ensures forall i :: 0 <= i < 4 ==> tiles[i].src == disk && tiles[i].w == r && tiles[i].h == r
    ensures forall i :: 0 <= i < 4 ==> tiles[i].sx == (i / 2) * r && tiles[i].x == (i / 2) * (w - r)
    ensures forall i :: 0 <= i < 4 ==> tiles[i].sy == (i % 2) * r && tiles[i].y == (i % 2) * (h - r)
  {
    [ Tile(disk, 0, 0, r, r, 0, 0),
      Tile(disk, 0, r, r, r, 0, h - r),
      Tile(disk, r, 0, r, r, w - r, 0),
      Tile(disk, r, r, r, r, w - r, h - r) ]
  }

  /** `Maker.get_corners_mask(rect, radius, fill)` over the disk buffer `disk`. Creating an
      image with a negative side fails, first for the disk, then for the output buffer.
      No check relates the radius to the rectangle: overlapping tiles simply overwrite. */
  function CornersMask(rect: Rect, radius: int, disk: Grid, fill: Byte): (m: Result<Grid, Error>)
    requires radius >= 0 ==> IsGrid(disk, 2 * radius, 2 * radius)
    ensures m.Failure? <==> radius < 0 || rect.right < 0 || rect.bottom < 0
    ensures m.Failure? ==> m.error == NegativeSize
    ensures m.Success? ==> IsGrid(m.value, rect.right, rect.bottom)
    ensures m.Success? ==> forall y, x :: 0 <= y < rect.bottom && 0 <= x < rect.right ==>
              m.value[y][x] == MaskPixel(rect.right, rect.bottom, radius, disk, fill, x, y)
    ensures m.Success? ==> forall y, x ::
              0 <= y < rect.bottom && 0 <= x < rect.right && !InCorner(rect.right, rect.bottom, radius, x, y) ==>
                m.value[y][x] == fill
  {
    if radius < 0 || rect.right < 0 || rect.bottom < 0 then
      Failure(NegativeSize)
    else
      var r, w, h := radius, rect.right, rect.bottom;
      var m := PasteAll(Filled(w, h, fill), w, h, Corners(w, h, r, disk));
      CornersProvenance(w, h, r, disk, fill, m);
      Success(m)
  }

  /** The paste sequence agrees with the pixel-wise reference `MaskPixel`. */
  lemma CornersProvenance(w: nat, h: nat, r: nat, disk: Grid, fill: Byte, m: Grid)
    requires IsGrid(disk, 2 * r, 2 * r)
    requires m == PasteAll(Filled(w, h, fill), w, h, Corners(w, h, r, disk))
    ensures forall y, x :: 0 <= y < h && 0 <= x < w ==> m[y][x] == MaskPixel(w, h, r, disk, fill, x, y)
  {
    var base, tiles := Filled(w, h, fill), Corners(w, h, r, disk);
    forall y, x | 0 <= y < h && 0 <= x < w
      ensures m[y][x] == MaskPixel(w, h, r, disk, fill, x, y)
    {
      PixelProvenance(w, h, r, disk, fill, base, tiles, m, x, y);
    }
  }

  /** One pixel of `CornersProvenance`: the last corner tile covering it decides. */
  lemma PixelProvenance(w: nat, h: nat, r: nat, disk: Grid, fill: Byte, base: Grid, tiles: seq<Tile>, m: Grid, x: nat, y: nat)
    requires IsGrid(disk, 2 * r, 2 * r)
    requires tiles == Corners(w, h, r, disk)
    requires IsGrid(base, w, h) && IsGrid(m, w, h)
    requires x < w && y < h && base[y][x] == fill
    requires m[y][x] == if LastCover(tiles, x, y) < 0 then base[y][x] else TilePixel(tiles[LastCover(tiles, x, y)], x, y)
    ensures m[y][x] == MaskPixel(w, h, r, disk, fill, x, y)
  {
    var k := LastCover(tiles, x, y);
    if Covers(tiles[3], x, y) {
      assert k == 3;
    } else if Covers(tiles[2], x, y) {
      assert k == 2;
    } else if Covers(tiles[1], x, y) {
      assert k == 1;
    } else if Covers(tiles[0], x, y) {
      assert k == 0;
    } else {
      assert k == -1;
    }
  }
}

/** Properties of the corner mask: where each pixel comes from and which values it can take. */
module MaskFacts {
  import opened Wrappers
  import opened Shapes
  import opened Mask

  /** The four crop boxes split the disk: each disk pixel `(a, b)` lies in the crop box of
      exactly one corner tile, so every quadrant is used once. */
  lemma CornerCropsSplitDisk(w: nat, h: nat, r: nat, disk: Grid, a: nat, b: nat)
    requires IsGrid(disk, 2 * r, 2 * r)
    requires a < 2 * r && b < 2 * r
    ensures exists i :: 0 <= i < 4 &&
              InTile(a, b, Corners(w, h, r, disk)[i].sx, Corners(w, h, r, disk)[i].sy, r, r)
    ensures forall i, j ::
              (0 <= i < 4 && 0 <= j < 4 &&
               InTile(a, b, Corners(w, h, r, disk)[i].sx, Corners(w, h, r, disk)[i].sy, r, r) &&
               InTile(a, b, Corners(w, h, r, disk)[j].sx, Corners(w, h, r, disk)[j].sy, r, r)) ==> i == j
  {
    var tiles := Corners(w, h, r, disk);
    var i := (if a < r then 0 else 2) + (if b < r then 0 else 1);
    assert InTile(a, b, tiles[i].sx, tiles[i].sy, r, r);
  }

  /** The bottom-right tile is pasted last, so it always holds the bottom-right quadrant
      `[r,2r)x[r,2r)` of the disk, whatever the radius. */
  lemma BottomRightTile(rect: Rect, r: nat, disk: Grid, fill: Byte, m: Grid)
    requires IsGrid(disk, 2 * r, 2 * r)
    requires CornersMask(rect, r, disk, fill) == Success(m)
    ensures forall y, x ::
              0 <= y < rect.bottom && 0 <= x < rect.right && rect.bottom - r <= y && rect.right - r <= x ==>
                m[y][x] == disk[y - (rect.bottom - r) + r][x - (rect.right - r) + r]
  {
  }

  /** When the tiles do not overlap (`2r <= min(w, h)`) each corner tile holds its own
      quadrant of the disk: top-left from `[0,r)x[0,r)`, bottom-left (at `(0, h-r)`) from
      `[0,r)x[r,2r)`, top-right (at `(w-r, 0)`) from `[r,2r)x[0,r)`. */
  lemma CornerTiles(rect: Rect, r: nat, disk: Grid, fill: Byte, m: Grid)
    requires IsGrid(disk, 2 * r, 2 * r)
    requires 2 * r <= rect.right && 2 * r <= rect.bottom
    requires CornersMask(rect, r, disk, fill) == Success(m)
    ensures forall y, x :: 0 <= y < r && 0 <= x < r ==> m[y][x] == disk[y][x]
    ensures forall y, x :: rect.bottom - r <= y < rect.bottom && 0 <= x < r ==>
              m[y][x] == disk[y - (rect.bottom - r) + r][x]
    ensures forall y, x :: 0 <= y < r && rect.right - r <= x < rect.right ==>
              m[y][x] == disk[y][x - (rect.right - r) + r]
  {
  }

  /** When the radius is more than half the width the top tiles overlap, and on the overlap
      the later top-right paste wins over the top-left one; no radius check prevents it. */
  lemma TopRightWinsOverlap(rect: Rect, r: nat, disk: Grid, fill: Byte, m: Grid, x: nat, y: nat)
    requires IsGrid(disk, 2 * r, 2 * r)
    requires CornersMask(rect, r, disk, fill) == Success(m)
    requires y < r && y < rect.bottom - r
    requires rect.right - r <= x < r && x < rect.right
    ensures m[y][x] == disk[y][x - (rect.right - r) + r]
  {
  }

  /** Pasting only copies pixels: if the disk holds only `0` and `fill`, so does the mask. */
  lemma MaskValues(rect: Rect, r: nat, disk: Grid, fill: Byte, m: Grid)
    requires IsGrid(disk, 2 * r, 2 * r)
    requires forall y, x :: 0 <= y < 2 * r && 0 <= x < 2 * r ==> disk[y][x] == 0 || disk[y][x] == fill
    requires CornersMask(rect, r, disk, fill) == Success(m)
    ensures forall y, x :: 0 <= y < rect.bottom && 0 <= x < rect.right ==> m[y][x] == 0 || m[y][x] == fill
  {
  }

  /** A 200 x 200 mask of radius 50: opaque at the centre and at the four edge midpoints,
      and each outermost corner pixel is the matching corner pixel of the disk, hence
      transparent for a disk whose corners are transparent. */
  lemma SquareMask(disk: Grid, m: Grid)
    requires IsGrid(disk, 100, 100)
    requires disk[0][0] == 0 && disk[0][99] == 0 && disk[99][0] == 0 && disk[99][99] == 0
    requires CornersMask(Rect(0, 0, 200, 200), 50, disk, Opaque) == Success(m)
    ensures m[100][100] == 255
    ensures m[0][100] == 255 && m[199][100] == 255 && m[100][0] == 255 && m[100][199] == 255
    ensures m[0][0] == 0 && m[0][199] == 0 && m[199][0] == 0 && m[199][199] == 0
  {
  }

  /** A radius of 101 on a 200 x 150 rectangle (so `2r > 150`) is not rejected: a mask of
      the rectangle's size is produced, and on the overlapping rows the bottom-left tile
      has overwritten the top-left one. */
  lemma OversizedRadiusAccepted(disk: Grid)
    requires IsGrid(disk, 202, 202)
    ensures CornersMask(Rect(0, 0, 200, 150), 101, disk, Opaque).Success?
    ensures IsGrid(CornersMask(Rect(0, 0, 200, 150), 101, disk, Opaque).value, 200, 150)
    ensures CornersMask(Rect(0, 0, 200, 150), 101, disk, Opaque).value[60][0] == disk[112][0]
  {
  }
}
