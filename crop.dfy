/** Region selection: crop percentages become a clamped pixel rectangle of the grey
    image, the working sub-raster is cut out of it, and the crop offset is recorded. */
module Crop {
  import opened Wrappers
  import opened Raster
  import opened Parameters
  import opened Arith

  /** A pixel rectangle: columns `x1 .. x2 - 1`, rows `y1 .. y2 - 1`. */
  datatype Region = Region(x1: int, y1: int, x2: int, y2: int)

  /** `int(n * p / 100)`: the truncated pixel position of a non-negative percentage. */
  function PixelOf(n: nat, p: Percent): (r: nat)
    ensures r as real <= n as real * p / 100.0 < r as real + 1.0
    ensures p <= 100.0 ==> r <= n
  {
    (n as real * p / 100.0).Floor
  }

  /** The rectangle the crop bounds select in an `h` x `w` image, or `None` when a start
      is not below its end on either axis (the crop is then ignored). A requested
      rectangle that already lies inside the image is kept as it is; otherwise it is
      clamped so that it is non-empty and inside: a start past the edge becomes the last
      row or column, an end past the edge becomes the edge, and an end that floors to
      at most its start gives a one-pixel-wide extent. */
  function CropRegion(cb: CropBounds, h: nat, w: nat): (r: Option<Region>)
    requires h > 0 && w > 0
    ensures r.None? <==> cb.hStart >= cb.hEnd || cb.vStart >= cb.vEnd
    ensures r.Some? ==> 0 <= r.value.x1 < r.value.x2 <= w && 0 <= r.value.y1 < r.value.y2 <= h
    ensures r.Some? && PixelOf(w, cb.hStart) < w ==> r.value.x1 == PixelOf(w, cb.hStart)
    ensures r.Some? && PixelOf(h, cb.vStart) < h ==> r.value.y1 == PixelOf(h, cb.vStart)
    ensures r.Some? && PixelOf(w, cb.hStart) < PixelOf(w, cb.hEnd) <= w ==> r.value.x2 == PixelOf(w, cb.hEnd)
    ensures r.Some? && PixelOf(h, cb.vStart) < PixelOf(h, cb.vEnd) <= h ==> r.value.y2 == PixelOf(h, cb.vEnd)
    ensures r.Some? && PixelOf(w, cb.hStart) >= w ==> r.value.x1 == w - 1 && r.value.x2 == w
    ensures r.Some? && PixelOf(h, cb.vStart) >= h ==> r.value.y1 == h - 1 && r.value.y2 == h
    ensures r.Some? && PixelOf(w, cb.hStart) < w < PixelOf(w, cb.hEnd) ==> r.value.x2 == w
    ensures r.Some? && PixelOf(h, cb.vStart) < h < PixelOf(h, cb.vEnd) ==> r.value.y2 == h
    ensures r.Some? && PixelOf(w, cb.hEnd) <= PixelOf(w, cb.hStart) < w ==> r.value.x2 == r.value.x1 + 1
    ensures r.Some? && PixelOf(h, cb.vEnd) <= PixelOf(h, cb.vStart) < h ==> r.value.y2 == r.value.y1 + 1
  {
    if cb.hStart >= cb.hEnd || cb.vStart >= cb.vEnd then None
    else
      var x1 := Max(0, Min(PixelOf(w, cb.hStart), w - 1));
      var x2 := Max(x1 + 1, Min(PixelOf(w, cb.hEnd), w));
      var y1 := Max(0, Min(PixelOf(h, cb.vStart), h - 1));
      var y2 := Max(y1 + 1, Min(PixelOf(h, cb.vEnd), h));
      Some(Region(x1, y1, x2, y2))
  }

  /** `g[y1:y2, x1:x2]` for a rectangle inside `g`. */
  function CropGrid(g: Grid, r: Region): (c: Grid)
    requires IsImage(g)
    requires 0 <= r.x1 < r.x2 <= |g[0]| && 0 <= r.y1 < r.y2 <= |g|
    ensures IsImage(c) && IsGrid(c, r.y2 - r.y1, r.x2 - r.x1)
    ensures forall i, j | 0 <= i < r.y2 - r.y1 && 0 <= j < r.x2 - r.x1 :: c[i][j] == g[r.y1 + i][r.x1 + j]
  {
    seq(r.y2 - r.y1, i requires 0 <= i < r.y2 - r.y1 => g[r.y1 + i][r.x1..r.x2])
  }

  /** The working raster: the cropped grey image for a valid crop, the whole grey image
      when there is no crop or the crop is invalid. */
  function Working(gray: Grid, crop: Option<CropBounds>): (r: Grid)
    requires IsImage(gray)
    ensures IsImage(r)
    ensures crop.None? ==> r == gray
    ensures crop.Some? && CropRegion(crop.value, |gray|, |gray[0]|).None? ==> r == gray
    ensures crop.Some? && CropRegion(crop.value, |gray|, |gray[0]|).Some? ==>
      var reg := CropRegion(crop.value, |gray|, |gray[0]|).value;
      IsGrid(r, reg.y2 - reg.y1, reg.x2 - reg.x1)
  {
    match crop
    case None => gray
    case Some(cb) =>
      match CropRegion(cb, |gray|, |gray[0]|)
      case None => gray
      case Some(reg) => CropGrid(gray, reg)
  }

  /** The value of `crop_offset` after a call: `(0, 0)` without a crop, the clamped
      top-left corner for a valid crop, and unchanged for an invalid one. */
  function NextCropOffset(prev: Option<(int, int)>, crop: Option<CropBounds>, h: nat, w: nat): (r: Option<(int, int)>)
    requires h > 0 && w > 0
    ensures crop.None? ==> r == Some((0, 0))
    ensures crop.Some? && (crop.value.hStart >= crop.value.hEnd || crop.value.vStart >= crop.value.vEnd) ==> r == prev
    ensures crop.Some? && crop.value.hStart < crop.value.hEnd && crop.value.vStart < crop.value.vEnd ==>
      r.Some? && 0 <= r.value.0 < w && 0 <= r.value.1 < h
    ensures crop.Some? && CropRegion(crop.value, h, w).Some? ==>
      var reg := CropRegion(crop.value, h, w).value;
      r == Some((reg.x1, reg.y1))
  {
    match crop
    case None => Some((0, 0))
    case Some(cb) =>
      match CropRegion(cb, h, w)
      case None => prev
      case Some(reg) => Some((reg.x1, reg.y1))
  }

  /** The offset at which cropped masks are put back and outlines are shifted:
      recomputed from the start percentages WITHOUT the clamping of `CropRegion`. */
  function Offset(crop: Option<CropBounds>, h: nat, w: nat): (r: (nat, nat))
    ensures crop.None? ==> r == (0, 0)
    ensures crop.Some? && crop.value.hStart <= 100.0 ==> r.0 <= w
    ensures crop.Some? && crop.value.vStart <= 100.0 ==> r.1 <= h
    ensures crop.Some? && h > 0 && w > 0 && CropRegion(crop.value, h, w).Some? && r.0 < w ==>
      r.0 == CropRegion(crop.value, h, w).value.x1
    ensures crop.Some? && h > 0 && w > 0 && CropRegion(crop.value, h, w).Some? && r.1 < h ==>
      r.1 == CropRegion(crop.value, h, w).value.y1
  {
    match crop
    case None => (0, 0)
    case Some(cb) => (PixelOf(w, cb.hStart), PixelOf(h, cb.vStart))
  }

  /** For a valid crop whose start lies inside the image, the placement offset is the
      corner that `crop_offset` records. */
  lemma OffsetMatchesCropOffset(prev: Option<(int, int)>, cb: CropBounds, h: nat, w: nat)
    requires h > 0 && w > 0
    requires cb.hStart < cb.hEnd && cb.vStart < cb.vEnd
    requires PixelOf(w, cb.hStart) < w && PixelOf(h, cb.vStart) < h
    ensures NextCropOffset(prev, Some(cb), h, w) == Some(Offset(Some(cb), h, w))
  {
  }

  /** A start percentage of 100 or more on a valid crop: the crop keeps the last column,
      but the placement offset points one past the image. */
  lemma ClampedStartDiverges(h: nat, w: nat)
    requires h > 0 && w > 0
    ensures var cb := CropBounds(100.0, 150.0, 0.0, 100.0);
      && CropRegion(cb, h, w) == Some(Region(w - 1, 0, w, h))
      && Offset(Some(cb), h, w) == (w, 0)
  {
    var cb := CropBounds(100.0, 150.0, 0.0, 100.0);
    assert PixelOf(w, 100.0) == w;
    assert PixelOf(h, 100.0) == h;
    assert w as real * 150.0 / 100.0 >= w as real;
    assert PixelOf(w, 150.0) >= w;
  }

  /** Bounds of 0 % to 100 % on both axes select the whole image. */
  lemma FullCropIsWholeImage(gray: Grid)
    requires IsImage(gray)
    ensures var cb := CropBounds(0.0, 100.0, 0.0, 100.0);
      && CropRegion(cb, |gray|, |gray[0]|) == Some(Region(0, 0, |gray[0]|, |gray|))
      && Working(gray, Some(cb)) == gray
      && Offset(Some(cb), |gray|, |gray[0]|) == (0, 0)
  {
    var h, w := |gray|, |gray[0]|;
    assert PixelOf(w, 100.0) == w;
    assert PixelOf(h, 100.0) == h;
    var c := CropGrid(gray, Region(0, 0, w, h));
    forall i | 0 <= i < h ensures c[i] == gray[i] {
      assert |gray[i]| == w;
    }
  }
}
