/** The processor object: the decoded picture and its grey version, the last enhanced
    raster, the last results and the crop offset, and `process_spheroid`, which runs the
    whole pipeline on the grey image and puts the masks back on a full-size canvas. */
module Processor {
  import opened Wrappers
  import opened Raster
  import opened Vision
  import opened Parameters
  import opened Crop
  import opened Canvas
  import opened Preprocess
  import opened Segmentation

  /** A decoded picture: one channel, or three in BGR order. */
  datatype Picture = Mono(gray: Grid) | Colour(bgr: ColourGrid)

  predicate WellFormed(pic: Picture) {
    match pic
    case Mono(g) => IsImage(g)
    case Colour(c) => IsColour(c)
  }

  /** `shape[0]` and `shape[1]` of a picture. */
  function Rows(pic: Picture): nat {
    match pic
    case Mono(g) => |g|
    case Colour(c) => |c|
  }

  function Cols(pic: Picture): nat {
    match pic
    case Mono(g) => Width(g)
    case Colour(c) => if |c| == 0 then 0 else |c[0]|
  }

  /** src/spheroid_processor.py lines 28-31: a three-channel picture is converted to grey, a grey one copied. */
  function GrayOf(v: Vision, pic: Picture): (g: Grid)
    requires GraySound(v) && WellFormed(pic)
    ensures IsImage(g) && |g| == Rows(pic) && |g[0]| == Cols(pic)
  {
    match pic
    case Mono(g) => g
    case Colour(c) => v.toGray(c)
  }

  /** `cvtColor(GRAY2BGR)`: the grey value in all three channels. */
  function GrayToBgr(g: Grid): (c: ColourGrid)
    requires IsImage(g)
    ensures IsColour(c) && |c| == |g| && |c[0]| == |g[0]|
  {
    seq(|g|, i requires 0 <= i < |g| =>
      seq(|g[0]|, j requires 0 <= j < |g[0]| => Bgr(g[i][j], g[i][j], g[i][j])))
  }

  /** `np.zeros((h, w, 3), np.uint8)`. */
  function ColourZeros(h: nat, w: nat): (c: ColourGrid)
    requires h > 0 && w > 0
    ensures IsColour(c) && |c| == h && |c[0]| == w
  {
    seq(h, i => seq(w, j => Bgr(0, 0, 0)))
  }

  /** The dictionary `process_spheroid` returns; `enhanced` is absent from the empty
      results. */
  datatype Results = Results(
    binaryOutput: Grid,
    overlay: Picture,
    coreMask: Grid,
    borderMask: Grid,
    spheroidMask: Grid,
    corePixels: nat,
    borderPixels: nat,
    totalPixels: nat,
    enhanced: Option<Grid>)

  /** How a call ends: `{}` when no image is loaded, the empty results when no spheroid
      is found, or the full results. */
  datatype Outcome = NotLoaded | NoSpheroid(empty: Results) | Segmented(res: Results)

  /** src/spheroid_processor.py lines 286-298: all-zero masks of the grey image's size, zero counts, and the
      original picture (or the zero mask itself) as overlay. */
  function EmptyResults(gray: Grid, original: Option<Picture>): (r: Results)
    requires IsImage(gray)
    ensures var h, w := |gray|, |gray[0]|;
      && IsGrid(r.spheroidMask, h, w) && IsGrid(r.coreMask, h, w) && IsGrid(r.borderMask, h, w)
      && Count(r.spheroidMask) == 0 && Count(r.coreMask) == 0 && Count(r.borderMask) == 0
      && r.binaryOutput == r.spheroidMask
      && r.corePixels == 0 && r.borderPixels == 0 && r.totalPixels == 0
      && r.enhanced.None?
      && (original.Some? ==> r.overlay == original.value)
      && (original.None? ==> r.overlay == Mono(r.spheroidMask))
  {
    var empty := Zeros(|gray|, |gray[0]|);
    CountZero(empty);
    Results(empty, if original.Some? then original.value else Mono(empty),
            empty, empty, empty, 0, 0, 0, None)
  }

  /** src/spheroid_processor.py lines 300-339: the outlines of the cropped masks drawn on a colour copy of the
      original, shifted by the corner of the crop in the original's size (`Corner`,
      which is the source's offset whenever the crop starts inside the image); a zero
      colour raster of the cropped masks' size when there is no original. */
  function CreateOverlay(v: Vision, original: Option<Picture>, core: Grid, border: Grid,
                         crop: Option<CropBounds>): (r: Picture)
    requires DrawSound(v) && (original.Some? ==> WellFormed(original.value))
    requires |core| > 0 && Width(core) > 0
    ensures r.Colour? && IsColour(r.bgr)
    ensures original.None? ==> Rows(r) == |core| && Cols(r) == Width(core)
    ensures original.Some? ==> Rows(r) == Rows(original.value) && Cols(r) == Cols(original.value)
  {
    match original
    case None => Colour(ColourZeros(|core|, Width(core)))
    case Some(pic) =>
      var base := match pic case Mono(g) => GrayToBgr(g) case Colour(c) => c;
      var corner := Corner(crop, Rows(pic), Cols(pic));
      Colour(v.drawOutlines(base, core, border, corner.0, corner.1))
  }

  /** Three masks of size `h` x `w`, with core and border partitioning the spheroid. */
  predicate Shaped(s: Split, h: nat, w: nat) {
    && IsGrid(s.spheroid, h, w) && IsGrid(s.core, h, w) && IsGrid(s.border, h, w)
    && IsMask(s.spheroid) && IsMask(s.core) && IsMask(s.border)
    && Partition(s.core, s.border, s.spheroid, h, w)
  }

  /** The cleaned binary mask of the working raster (src/spheroid_processor.py lines 76-171). */
  function Cleaned(v: Vision, p: Params, gray: Grid): (b: Grid)
    requires FilterSound(v) && MorphSound(v) && IsImage(gray)
    ensures Like(b, Working(gray, p.crop))
  {
    Detect(v, p, Augment(v, p, Enhance(v, p, Working(gray, p.crop))))
  }

  /** The split of the working raster, when a spheroid is found (src/spheroid_processor.py lines 173-233). */
  function Found(v: Vision, p: Params, gray: Grid): (r: Option<Split>)
    requires FilterSound(v) && MorphSound(v) && FillSound(v) && LabelSound(v) && ValidParams(p) && IsImage(gray)
    ensures r.Some? ==> var wk := Working(gray, p.crop);
      Shaped(r.value, |wk|, |wk[0]|) && Count(r.value.core) + Count(r.value.border) == Count(r.value.spheroid) > 0
  {
    var wk := Working(gray, p.crop);
    var b := Cleaned(v, p, gray);
    var r := Segment(v, p, b, wk);
    if r.None? then r
    else
      SegmentPartition(v, p, b, wk);
      r
  }

  /** The three masks written at the same offset into zero canvases of size `h` x `w`
      (src/spheroid_processor.py lines 243-251): either every write succeeds or none does. */
  function PasteAll(h: nat, w: nat, s: Split, ch: nat, cw: nat, y: nat, x: nat): (r: Option<Split>)
    requires Shaped(s, ch, cw) && ch > 0 && cw > 0
    ensures r.Some? <==> Fits(h, w, ch, cw, y, x)
    ensures r.Some? ==> && Placed(r.value.spheroid, s.spheroid, h, w, y, x)
                        && Placed(r.value.core, s.core, h, w, y, x)
                        && Placed(r.value.border, s.border, h, w, y, x)
  {
    assert Width(s.spheroid) == cw && Width(s.core) == cw && Width(s.border) == cw;
    match Paste(h, w, s.spheroid, y, x)
    case None => None
    case Some(sph) =>
      match Paste(h, w, s.core, y, x)
      case None => None
      case Some(core) =>
        match Paste(h, w, s.border, y, x)
        case None => None
        case Some(border) =>
          Some(Split(sph, core, border))
  }

  /** Pasted masks are again masks of the canvas size in which core and border
      partition the spheroid. */
  lemma PasteAllShaped(h: nat, w: nat, s: Split, ch: nat, cw: nat, y: nat, x: nat)
    requires Shaped(s, ch, cw) && ch > 0 && cw > 0
    requires PasteAll(h, w, s, ch, cw, y, x).Some?
    ensures Shaped(PasteAll(h, w, s, ch, cw, y, x).value, h, w)
  {
    assert Width(s.spheroid) == cw && Width(s.core) == cw && Width(s.border) == cw;
  }

  // ---------------------------------------------------------------------------
  // Putting the masks back on a full-size canvas

  /** No crop, or a valid crop whose start percentages land inside the image. */
  predicate StartInside(crop: Option<CropBounds>, h: nat, w: nat)
    requires h > 0 && w > 0
  {
    crop.Some? ==>
      CropRegion(crop.value, h, w).Some? && PixelOf(w, crop.value.hStart) < w && PixelOf(h, crop.value.vStart) < h
  }

  /** The corner of the working raster in the image: the clamped corner that
      `crop_offset` records for a valid crop, the origin otherwise. */
  function Corner(crop: Option<CropBounds>, h: nat, w: nat): (c: (nat, nat))
    requires h > 0 && w > 0
    ensures crop.None? || CropRegion(crop.value, h, w).None? ==> c == (0, 0)
    ensures crop.Some? && CropRegion(crop.value, h, w).Some? ==>
      c == (CropRegion(crop.value, h, w).value.x1, CropRegion(crop.value, h, w).value.y1)
    ensures c.0 < w && c.1 < h
    ensures StartInside(crop, h, w) ==> c == Offset(crop, h, w)
  {
    match crop
    case None => (0, 0)
    case Some(cb) =>
      match CropRegion(cb, h, w)
      case None => (0, 0)
      case Some(reg) => (reg.x1, reg.y1)
  }

  /** When the working raster is the whole image its corner is the origin. */
  lemma WholeWorkingAtOrigin(gray: Grid, crop: Option<CropBounds>)
    requires IsImage(gray) && Working(gray, crop) == gray
    ensures Corner(crop, |gray|, |gray[0]|) == (0, 0)
  {
    if crop.Some? && CropRegion(crop.value, |gray|, |gray[0]|).Some? {
      var reg := CropRegion(crop.value, |gray|, |gray[0]|).value;
      assert reg.x2 - reg.x1 == |gray[0]| && reg.y2 - reg.y1 == |gray|;
    }
  }

  /** src/spheroid_processor.py lines 236-261 as written: without a crop the masks are used as they are; with
      one (valid or not) they are written into canvases of the grey image's size at the
      offset recomputed from the start percentages without clamping, or numpy raises. */
  function PlaceAsWritten(crop: Option<CropBounds>, h: nat, w: nat, s: Split, ch: nat, cw: nat): (r: Option<Split>)
    requires Shaped(s, ch, cw) && ch > 0 && cw > 0
    ensures crop.None? ==> r == Some(s)
  {
    if crop.None? then Some(s)
    else
      var offset := Offset(crop, h, w);
      PasteAll(h, w, s, ch, cw, offset.1, offset.0)
  }

  /** Placed at `Corner`, the masks of the working raster always fit, stay masks of the
      image's size in which core and border partition the spheroid, keep their pixel
      counts, and are returned unchanged when the working raster is the whole image. */
  lemma CornerPlacement(gray: Grid, crop: Option<CropBounds>, s: Split)
    requires IsImage(gray)
    requires Shaped(s, |Working(gray, crop)|, |Working(gray, crop)[0]|)
    ensures var wk := Working(gray, crop);
      var c := Corner(crop, |gray|, |gray[0]|);
      var r := PasteAll(|gray|, |gray[0]|, s, |wk|, |wk[0]|, c.1, c.0);
      && r.Some?
      && Shaped(r.value, |gray|, |gray[0]|)
      && Count(r.value.spheroid) == Count(s.spheroid)
      && Count(r.value.core) == Count(s.core)
      && Count(r.value.border) == Count(s.border)
      && (wk == gray ==> r.value == s)
  {
    var h, w := |gray|, |gray[0]|;
    var wk := Working(gray, crop);
    var c := Corner(crop, h, w);
    CornerFits(gray, crop);
    PasteAllInside(h, w, s, |wk|, |wk[0]|, c.1, c.0);
    if wk == gray {
      WholeWorkingAtOrigin(gray, crop);
      PasteAllAtOrigin(h, w, s);
    }
  }

  /** The working raster, put at its corner, lies inside the image. */
  lemma CornerFits(gray: Grid, crop: Option<CropBounds>)
    requires IsImage(gray)
    ensures var wk := Working(gray, crop);
      var c := Corner(crop, |gray|, |gray[0]|);
      c.1 + |wk| <= |gray| && c.0 + |wk[0]| <= |gray[0]|
  {
    if crop.Some? && CropRegion(crop.value, |gray|, |gray[0]|).Some? {
      var reg := CropRegion(crop.value, |gray|, |gray[0]|).value;
      var wk := Working(gray, crop);
      assert |wk| == reg.y2 - reg.y1 && |wk[0]| == reg.x2 - reg.x1;
    }
  }

  /** Masks written wholly inside the canvas fit, stay shaped and keep their counts. */
  lemma PasteAllInside(h: nat, w: nat, s: Split, ch: nat, cw: nat, y: nat, x: nat)
    requires Shaped(s, ch, cw) && ch > 0 && cw > 0 && y + ch <= h && x + cw <= w
    ensures var r := PasteAll(h, w, s, ch, cw, y, x);
      && r.Some?
      && Shaped(r.value, h, w)
      && Count(r.value.spheroid) == Count(s.spheroid)
      && Count(r.value.core) == Count(s.core)
      && Count(r.value.border) == Count(s.border)
  {
    assert Width(s.spheroid) == cw && Width(s.core) == cw && Width(s.border) == cw;
    PasteKeepsCount(h, w, s.spheroid, y, x);
    PasteKeepsCount(h, w, s.core, y, x);
    PasteKeepsCount(h, w, s.border, y, x);
    PasteAllShaped(h, w, s, ch, cw, y, x);
  }

  /** Full-size masks written at the origin come back unchanged. */
  lemma PasteAllAtOrigin(h: nat, w: nat, s: Split)
    requires Shaped(s, h, w) && h > 0 && w > 0
    ensures PasteAll(h, w, s, h, w, 0, 0) == Some(s)
  {
    PasteAtOrigin(h, w, s.spheroid);
    PasteAtOrigin(h, w, s.core);
    PasteAtOrigin(h, w, s.border);
  }

  /** src/spheroid_processor.py lines 236-261 with the placement the code evidently intends: the masks of the
      working raster written into zero canvases of the grey image's size at the corner
      of the working raster. They always fit, core and border still partition the
      spheroid, every count is kept, and the masks come back unchanged when the working
      raster is the whole image (no crop, an invalid crop, or a crop of everything). */
  function Place(gray: Grid, crop: Option<CropBounds>, s: Split): (r: Split)
    requires IsImage(gray) && Shaped(s, |Working(gray, crop)|, |Working(gray, crop)[0]|)
    ensures Shaped(r, |gray|, |gray[0]|)
    ensures Count(r.spheroid) == Count(s.spheroid) && Count(r.core) == Count(s.core)
    ensures Count(r.border) == Count(s.border)
    ensures Working(gray, crop) == gray ==> r == s
  {
    var wk := Working(gray, crop);
    var c := Corner(crop, |gray|, |gray[0]|);
    CornerPlacement(gray, crop, s);
    if crop.None? then
      assert wk == gray;
      s
    else
      PasteAll(|gray|, |gray[0]|, s, |wk|, |wk[0]|, c.1, c.0).value
  }

  /** Each placed mask holds the working raster's mask at the corner of the working
      raster (rows from `c.1`, columns from `c.0`) and is 0 everywhere else. */
  lemma PlaceAtCorner(gray: Grid, crop: Option<CropBounds>, s: Split)
    requires IsImage(gray) && Shaped(s, |Working(gray, crop)|, |Working(gray, crop)[0]|)
    ensures var r, c := Place(gray, crop, s), Corner(crop, |gray|, |gray[0]|);
      && Placed(r.spheroid, s.spheroid, |gray|, |gray[0]|, c.1, c.0)
      && Placed(r.core, s.core, |gray|, |gray[0]|, c.1, c.0)
      && Placed(r.border, s.border, |gray|, |gray[0]|, c.1, c.0)
  {
    var wk := Working(gray, crop);
    var c := Corner(crop, |gray|, |gray[0]|);
    CornerPlacement(gray, crop, s);
    if crop.None? {
      assert wk == gray && c == (0, 0);
    } else {
      var placed := PasteAll(|gray|, |gray[0]|, s, |wk|, |wk[0]|, c.1, c.0);
      assert Place(gray, crop, s) == placed.value;
    }
  }

  /** With a valid crop, the placed masks hold the working raster's masks at the
      corner recorded as `crop_offset` and are 0 everywhere else. */
  lemma MasksAtCropOffset(gray: Grid, crop: Option<CropBounds>, s: Split, prev: Option<(int, int)>)
    requires IsImage(gray) && crop.Some? && CropRegion(crop.value, |gray|, |gray[0]|).Some?
    requires Shaped(s, |Working(gray, crop)|, |Working(gray, crop)[0]|)
    ensures var o := NextCropOffset(prev, crop, |gray|, |gray[0]|);
      && o.Some? && o.value.0 >= 0 && o.value.1 >= 0
      && var r := Place(gray, crop, s);
      && Placed(r.spheroid, s.spheroid, |gray|, |gray[0]|, o.value.1, o.value.0)
      && Placed(r.core, s.core, |gray|, |gray[0]|, o.value.1, o.value.0)
      && Placed(r.border, s.border, |gray|, |gray[0]|, o.value.1, o.value.0)
  {
    var c := Corner(crop, |gray|, |gray[0]|);
    PlaceAtCorner(gray, crop, s);
    assert NextCropOffset(prev, crop, |gray|, |gray[0]|) == Some((c.0 as int, c.1 as int));
  }

  /** Where the crop starts inside the image, the placement as written is the intended
      one. */
  lemma PlacementAgreesInside(gray: Grid, crop: Option<CropBounds>, s: Split)
    requires IsImage(gray) && StartInside(crop, |gray|, |gray[0]|)
    requires Shaped(s, |Working(gray, crop)|, |Working(gray, crop)[0]|)
    ensures var wk := Working(gray, crop);
      PlaceAsWritten(crop, |gray|, |gray[0]|, s, |wk|, |wk[0]|) == Some(Place(gray, crop, s))
  {
    CornerPlacement(gray, crop, s);
  }

  /** As written, an invalid crop (a start not below its end) leaves the working raster
      the whole image but still shifts the full-size masks by the start offset: they
      overhang the canvas and numpy raises, where the intended placement returns them
      unchanged. */
  lemma InvalidCropRaises(gray: Grid, crop: Option<CropBounds>, s: Split)
    requires IsImage(gray) && crop.Some? && CropRegion(crop.value, |gray|, |gray[0]|).None?
    requires Offset(crop, |gray|, |gray[0]|) != (0, 0) && |gray| > 1 && |gray[0]| > 1
    requires Shaped(s, |gray|, |gray[0]|)
    ensures PlaceAsWritten(crop, |gray|, |gray[0]|, s, |gray|, |gray[0]|).None?
    ensures Place(gray, crop, s) == s
  {
    var h, w := |gray|, |gray[0]|;
    var offset := Offset(crop, h, w);
    FullSizeAtOffsetFails(h, w, s.spheroid, offset.1, offset.0);
  }

  /** As written, a valid crop whose horizontal (vertical) start is 100 % or more is
      clamped to the last column (row), but the one-column (one-row) masks are written
      one column (row) past the canvas: numpy broadcasts them into the empty slice, so
      every full-size mask comes back empty, where the intended placement keeps every
      count. */
  lemma StartPastEdgeLosesMasks(gray: Grid, crop: Option<CropBounds>, s: Split)
    requires IsImage(gray) && crop.Some? && CropRegion(crop.value, |gray|, |gray[0]|).Some?
    requires PixelOf(|gray[0]|, crop.value.hStart) >= |gray[0]| || PixelOf(|gray|, crop.value.vStart) >= |gray|
    requires Shaped(s, |Working(gray, crop)|, |Working(gray, crop)[0]|)
    ensures var wk := Working(gray, crop);
      var r := PlaceAsWritten(crop, |gray|, |gray[0]|, s, |wk|, |wk[0]|);
      && r.Some?
      && Count(r.value.spheroid) == 0 && Count(r.value.core) == 0 && Count(r.value.border) == 0
      && Count(Place(gray, crop, s).spheroid) == Count(s.spheroid)
  {
    var h, w := |gray|, |gray[0]|;
    var reg := CropRegion(crop.value, h, w).value;
    var wk := Working(gray, crop);
    var ch, cw := |wk|, |wk[0]|;
    var offset := Offset(crop, h, w);
    var x, y := offset.0, offset.1;
    if x >= w {
      assert cw == 1;
      assert Broadcasts(ch, SliceLen(y, ch, h)) by {
        if y < h {
          assert y == reg.y1 && y + ch == reg.y2;
        } else {
          assert ch == 1;
        }
      }
      PastBeyondEdgeIsEmpty(h, w, s.spheroid, y, x);
      PastBeyondEdgeIsEmpty(h, w, s.core, y, x);
      PastBeyondEdgeIsEmpty(h, w, s.border, y, x);
    } else {
      assert ch == 1 && y >= h;
      assert Broadcasts(cw, SliceLen(x, cw, w)) by {
        assert x == reg.x1 && x + cw == reg.x2;
      }
      PastBelowEdgeIsEmpty(h, w, s.spheroid, y, x);
      PastBelowEdgeIsEmpty(h, w, s.core, y, x);
      PastBelowEdgeIsEmpty(h, w, s.border, y, x);
    }
  }

  // ---------------------------------------------------------------------------
  // A call on a loaded image

  /** src/spheroid_processor.py lines 173-284 once the split is known: the empty results when no spheroid was
      found; otherwise the masks placed on the full-size canvas, the overlay, the counts
      of the cropped masks, and the augmented raster. */
  function Report(v: Vision, p: Params, gray: Grid, original: Option<Picture>, found: Option<Split>,
                  augmented: Grid): (r: Outcome)
    requires DrawSound(v) && IsImage(gray)
    requires original.Some? ==> WellFormed(original.value)
    requires found.Some? ==> Shaped(found.value, |Working(gray, p.crop)|, |Working(gray, p.crop)[0]|)
    ensures !r.NotLoaded?
  {
    match found
    case None => NoSpheroid(EmptyResults(gray, original))
    case Some(s) =>
      var full := Place(gray, p.crop, s);
      Segmented(Results(
        full.spheroid,
        CreateOverlay(v, original, s.core, s.border, p.crop),
        full.core,
        full.border,
        full.spheroid,
        Count(s.core),
        Count(s.border),
        Count(s.core) + Count(s.border),
        Some(augmented)))
  }

  /** `process_spheroid` on a loaded grey image, from the crop to the results. */
  function Analyse(v: Vision, p: Params, gray: Grid, original: Option<Picture>): (r: Outcome)
    requires Sound(v) && ValidParams(p) && IsImage(gray)
    requires original.Some? ==> WellFormed(original.value)
    ensures !r.NotLoaded?
  {
    var wk := Working(gray, p.crop);
    Report(v, p, gray, original, Found(v, p, gray), Augment(v, p, Enhance(v, p, wk)))
  }

  /** src/spheroid_processor.py lines 77-106: the working raster and the new value of `crop_offset`, which an
      invalid crop leaves as it was. */
  method CropStep(gray: Grid, crop: Option<CropBounds>, prev: Option<(int, int)>)
    returns (working: Grid, offset: Option<(int, int)>)
    requires IsImage(gray)
    ensures working == Working(gray, crop)
    ensures offset == NextCropOffset(prev, crop, |gray|, |gray[0]|)
  {
    working, offset := gray, prev;
    match crop {
      case None =>
        offset := Some((0, 0));
      case Some(cb) =>
        var region := CropRegion(cb, |gray|, |gray[0]|);
        if region.Some? {
          working := CropGrid(gray, region.value);
          offset := Some((region.value.x1, region.value.y1));
        }
    }
  }

  /** src/spheroid_processor.py lines 243-251 as the source performs them: the three slice assignments in turn,
      the first that numpy refuses ending the call. */
  method PasteMasks(h: nat, w: nat, s: Split, ch: nat, cw: nat, y: nat, x: nat) returns (r: Option<Split>)
    requires Shaped(s, ch, cw) && ch > 0 && cw > 0
    ensures r == PasteAll(h, w, s, ch, cw, y, x)
  {
    assert Width(s.spheroid) == cw && Width(s.core) == cw && Width(s.border) == cw;
    var sph := PlaceOnCanvas(h, w, s.spheroid, y, x);
    if sph.None? {
      return None;
    }
    var core := PlaceOnCanvas(h, w, s.core, y, x);
    if core.None? {
      return None;
    }
    var border := PlaceOnCanvas(h, w, s.border, y, x);
    if border.None? {
      return None;
    }
    r := Some(Split(sph.value, core.value, border.value));
  }

  /** src/spheroid_processor.py lines 236-251: the three masks written in turn into zero canvases at the corner
      of the working raster. */
  method PlaceMasks(gray: Grid, crop: Option<CropBounds>, s: Split) returns (r: Split)
    requires IsImage(gray) && Shaped(s, |Working(gray, crop)|, |Working(gray, crop)[0]|)
    ensures r == Place(gray, crop, s)
  {
    if crop.None? {
      return s;
    }
    var wk := Working(gray, crop);
    var c := Corner(crop, |gray|, |gray[0]|);
    CornerPlacement(gray, crop, s);
    var placed := PasteMasks(|gray|, |gray[0]|, s, |wk|, |wk[0]|, c.1, c.0);
    r := placed.value;
  }

  /** src/spheroid_processor.py lines 148-233: edge augmentation, detection and the split of the working raster. */
  method FindSpheroid(v: Vision, p: Params, gray: Grid, working: Grid, enhanced: Grid)
    returns (found: Option<Split>, augmented: Grid)
    requires Sound(v) && ValidParams(p) && IsImage(gray)
    requires working == Working(gray, p.crop) && enhanced == Enhance(v, p, working)
    ensures found == Found(v, p, gray) && augmented == Augment(v, p, enhanced)
  {
    augmented := Augment(v, p, enhanced);
    var binary := Detect(v, p, augmented);
    found := SplitMasks(v, p, binary, working);
  }

  /** src/spheroid_processor.py lines 235-298: the empty results, or the masks put back on the canvas with the
      overlay and the pixel counts. */
  method Conclude(v: Vision, p: Params, gray: Grid, original: Option<Picture>, found: Option<Split>,
                  augmented: Grid)
    returns (outcome: Outcome)
    requires DrawSound(v) && IsImage(gray)
    requires original.Some? ==> WellFormed(original.value)
    requires found.Some? ==> Shaped(found.value, |Working(gray, p.crop)|, |Working(gray, p.crop)[0]|)
    ensures outcome == Report(v, p, gray, original, found, augmented)
  {
    if found.None? {
      return NoSpheroid(EmptyResults(gray, original));
    }
    outcome := Assemble(v, p, gray, original, found.value, augmented);
  }

  /** src/spheroid_processor.py lines 236-284 for a found spheroid: the masks put back on the canvas, the overlay
      and the pixel counts of the cropped masks. */
  method Assemble(v: Vision, p: Params, gray: Grid, original: Option<Picture>, s: Split, augmented: Grid)
    returns (outcome: Outcome)
    requires DrawSound(v) && IsImage(gray)
    requires original.Some? ==> WellFormed(original.value)
    requires Shaped(s, |Working(gray, p.crop)|, |Working(gray, p.crop)[0]|)
    ensures outcome == Report(v, p, gray, original, Some(s), augmented)
  {
    var wk := Working(gray, p.crop);
    assert Width(s.core) == |wk[0]|;
    var full := PlaceMasks(gray, p.crop, s);
    var overlay := CreateOverlay(v, original, s.core, s.border, p.crop);
    var corePixels, borderPixels := Count(s.core), Count(s.border);
    outcome := Segmented(Results(full.spheroid, overlay, full.core, full.border, full.spheroid,
                                 corePixels, borderPixels, corePixels + borderPixels, Some(augmented)));
  }

  // ---------------------------------------------------------------------------
  // Properties of a call

  /** A spheroid is found exactly when no-spheroid results do not come back; those are
      the empty results, and they come back exactly when no contour of the cleaned mask
      reaches `min_area` or the chosen contour fills no pixel. */
  lemma NoSpheroidExactly(v: Vision, p: Params, gray: Grid, original: Option<Picture>)
    requires Sound(v) && ValidParams(p) && IsImage(gray)
    requires original.Some? ==> WellFormed(original.value)
    ensures Analyse(v, p, gray, original).Segmented? <==> Found(v, p, gray).Some?
    ensures Analyse(v, p, gray, original).NoSpheroid? <==> NoSpheroidIn(v, p.minArea, Cleaned(v, p, gray))
    ensures Analyse(v, p, gray, original).NoSpheroid? ==>
      Analyse(v, p, gray, original).empty == EmptyResults(gray, original)
  {
    var wk := Working(gray, p.crop);
    var found := Found(v, p, gray);
    ReportKinds(v, p, gray, original, found, Augment(v, p, Enhance(v, p, wk)));
    assert found == Segment(v, p, Cleaned(v, p, gray), wk);
  }

  /** A call with the default arguments works on the whole grey image and returns the
      empty results exactly when no contour of the cleaned mask reaches an area of 100
      or the chosen contour fills no pixel. */
  lemma DefaultCall(v: Vision, gray: Grid, original: Option<Picture>)
    requires Sound(v) && IsImage(gray)
    requires original.Some? ==> WellFormed(original.value)
    ensures ValidParams(Defaults) && Working(gray, Defaults.crop) == gray
    ensures Analyse(v, Defaults, gray, original).NoSpheroid? <==>
      NoSpheroidIn(v, 100, Cleaned(v, Defaults, gray))
  {
    DefaultsValid();
    NoSpheroidExactly(v, Defaults, gray, original);
  }

  /** The outcome once the split is known: full results exactly when a spheroid was
      found, the empty results exactly when none was. */
  lemma ReportKinds(v: Vision, p: Params, gray: Grid, original: Option<Picture>, found: Option<Split>,
                    augmented: Grid)
    requires DrawSound(v) && IsImage(gray)
    requires original.Some? ==> WellFormed(original.value)
    requires found.Some? ==> Shaped(found.value, |Working(gray, p.crop)|, |Working(gray, p.crop)[0]|)
    ensures Report(v, p, gray, original, found, augmented).Segmented? <==> found.Some?
    ensures Report(v, p, gray, original, found, augmented).NoSpheroid? <==> found.None?
    ensures found.None? ==> Report(v, p, gray, original, found, augmented) == NoSpheroid(EmptyResults(gray, original))
  {
  }

  /** The full results of a call: three masks of the grey image's size in which core
      and border partition the spheroid, `binary_output` equal to `spheroid_mask`, pixel
      counts that are the counts of the returned masks, a positive total that is the sum
      of core and border counts, the edge-augmented raster as `enhanced_image`, and an
      overlay of the original's size (of the working raster's size when there is no
      original). */
  lemma SegmentedResults(v: Vision, p: Params, gray: Grid, original: Option<Picture>)
    requires Sound(v) && ValidParams(p) && IsImage(gray)
    requires original.Some? ==> WellFormed(original.value)
    requires Analyse(v, p, gray, original).Segmented?
    ensures var res := Analyse(v, p, gray, original).res;
      var wk := Working(gray, p.crop);
      && Shaped(Split(res.spheroidMask, res.coreMask, res.borderMask), |gray|, |gray[0]|)
      && res.binaryOutput == res.spheroidMask
      && Count(res.coreMask) == res.corePixels && Count(res.borderMask) == res.borderPixels
      && Count(res.spheroidMask) == res.totalPixels
      && res.totalPixels == res.corePixels + res.borderPixels > 0
      && res.enhanced == Some(Augment(v, p, Enhance(v, p, wk)))
      && res.overlay.Colour?
      && (original.Some? ==> Rows(res.overlay) == Rows(original.value) && Cols(res.overlay) == Cols(original.value))
      && (original.None? ==> Rows(res.overlay) == |wk| && Cols(res.overlay) == |wk[0]|)
  {
    var s := Found(v, p, gray).value;
    assert Width(s.core) == |Working(gray, p.crop)[0]|;
  }

  /** The crop settings reach the detection only through the working raster. */
  lemma SameWorkingSameSplit(v: Vision, p: Params, q: Params, gray: Grid)
    requires Sound(v) && ValidParams(p) && IsImage(gray)
    requires q == p.(crop := q.crop) && Working(gray, p.crop) == Working(gray, q.crop)
    ensures ValidParams(q)
    ensures Enhance(v, p, Working(gray, p.crop)) == Enhance(v, q, Working(gray, q.crop))
    ensures Augment(v, p, Enhance(v, p, Working(gray, p.crop))) == Augment(v, q, Enhance(v, q, Working(gray, q.crop)))
    ensures Found(v, p, gray) == Found(v, q, gray)
  {
    var wk := Working(gray, p.crop);
    var e := Enhance(v, p, wk);
    var au := Augment(v, p, e);
    EnhanceIgnoresCrop(v, p, q, wk);
    AugmentIgnoresCrop(v, p, q, e);
    DetectIgnoresCrop(v, p, q, au);
    SegmentIgnoresCrop(v, p, q, Detect(v, p, au), wk);
  }

  lemma EnhanceIgnoresCrop(v: Vision, p: Params, q: Params, g: Grid)
    requires FilterSound(v) && IsImage(g) && q == p.(crop := q.crop)
    ensures Enhance(v, p, g) == Enhance(v, q, g)
  {
  }

  lemma AugmentIgnoresCrop(v: Vision, p: Params, q: Params, g: Grid)
    requires FilterSound(v) && IsImage(g) && q == p.(crop := q.crop)
    ensures Augment(v, p, g) == Augment(v, q, g)
  {
  }

  lemma DetectIgnoresCrop(v: Vision, p: Params, q: Params, g: Grid)
    requires MorphSound(v) && IsImage(g) && q == p.(crop := q.crop)
    ensures Detect(v, p, g) == Detect(v, q, g)
  {
  }

  lemma SegmentIgnoresCrop(v: Vision, p: Params, q: Params, binary: Grid, working: Grid)
    requires FillSound(v) && MorphSound(v) && LabelSound(v) && ValidParams(p) && IsImage(working) && Like(binary, working)
    requires q == p.(crop := q.crop)
    ensures ValidParams(q) && Segment(v, p, binary, working) == Segment(v, q, binary, working)
  {
  }

  /** A crop whose working raster is the whole image gives the same outcome as no crop
      at all. */
  lemma WholeImageCropIsNoCrop(v: Vision, p: Params, gray: Grid, original: Option<Picture>)
    requires Sound(v) && ValidParams(p) && IsImage(gray)
    requires original.Some? ==>
      WellFormed(original.value) && Rows(original.value) == |gray| && Cols(original.value) == |gray[0]|
    requires Working(gray, p.crop) == gray
    ensures Analyse(v, p, gray, original) == Analyse(v, p.(crop := None), gray, original)
  {
    var q := p.(crop := None);
    SameWorkingSameSplit(v, p, q, gray);
    ReportIgnoresWholeCrop(v, p, gray, original, Found(v, p, gray), Augment(v, p, Enhance(v, p, gray)));
  }

  /** Once the split is known, a crop whose working raster is the whole image is
      reported as no crop: the masks stay as they are and the outlines are drawn at
      the origin. */
  lemma ReportIgnoresWholeCrop(v: Vision, p: Params, gray: Grid, original: Option<Picture>,
                               found: Option<Split>, augmented: Grid)
    requires DrawSound(v) && IsImage(gray) && Working(gray, p.crop) == gray
    requires original.Some? ==>
      WellFormed(original.value) && Rows(original.value) == |gray| && Cols(original.value) == |gray[0]|
    requires found.Some? ==> Shaped(found.value, |gray|, |gray[0]|)
    ensures Report(v, p, gray, original, found, augmented) == Report(v, p.(crop := None), gray, original, found, augmented)
  {
    WholeWorkingAtOrigin(gray, p.crop);
  }

  /** Bounds of 0 % to 100 % on both axes give the same outcome as no crop at all. */
  lemma FullCropIsNoCrop(v: Vision, p: Params, gray: Grid, original: Option<Picture>)
    requires Sound(v) && ValidParams(p) && IsImage(gray)
    requires original.Some? ==>
      WellFormed(original.value) && Rows(original.value) == |gray| && Cols(original.value) == |gray[0]|
    requires p.crop == Some(CropBounds(0.0, 100.0, 0.0, 100.0))
    ensures Analyse(v, p, gray, original) == Analyse(v, p.(crop := None), gray, original)
  {
    FullCropIsWholeImage(gray);
    WholeImageCropIsNoCrop(v, p, gray, original);
  }

  /** An invalid crop (a start not below its end on either axis) is ignored: the
      outcome is that of no crop at all. */
  lemma InvalidCropIsNoCrop(v: Vision, p: Params, gray: Grid, original: Option<Picture>)
    requires Sound(v) && ValidParams(p) && IsImage(gray)
    requires original.Some? ==>
      WellFormed(original.value) && Rows(original.value) == |gray| && Cols(original.value) == |gray[0]|
    requires p.crop.Some? && (p.crop.value.hStart >= p.crop.value.hEnd || p.crop.value.vStart >= p.crop.value.vEnd)
    ensures Analyse(v, p, gray, original) == Analyse(v, p.(crop := None), gray, original)
  {
    WholeImageCropIsNoCrop(v, p, gray, original);
  }

  /** The processor object (src/spheroid_processor.py lines 11-18). `results` is `None` while it is still the
      initial empty dictionary; `cropOffset` is `None` until the attribute is first
      assigned. */
  class SpheroidProcessor {
    const cv: Vision
    var originalImage: Option<Picture>
    var grayImage: Option<Grid>
    var enhancedImage: Option<Grid>
    var results: Option<Results>
    var cropOffset: Option<(int, int)>

    /** A loaded grey image is a proper raster; a loaded original is well formed and
        has the grey image's size. */
    ghost predicate Valid()
      reads this`grayImage, this`originalImage
    {
      && Sound(cv)
      && (grayImage.Some? ==> IsImage(grayImage.value))
      && (originalImage.Some? ==>
            && WellFormed(originalImage.value) && grayImage.Some?
            && Rows(originalImage.value) == |grayImage.value|
            && Cols(originalImage.value) == |grayImage.value[0]|)
    }

    constructor(v: Vision)
      requires Sound(v)
      ensures Valid() && cv == v
      ensures originalImage.None? && grayImage.None? && enhancedImage.None?
      ensures results.None? && cropOffset.None?
    {
      cv := v;
      originalImage := None;
      grayImage := None;
      enhancedImage := None;
      results := None;
      cropOffset := None;
    }

    /** src/spheroid_processor.py lines 20-35, with the decoder's answer as a parameter: the original is
        replaced even when decoding failed, but the grey image is only replaced on
        success, so a failed load keeps the previous grey image. */
    method LoadImage(decoded: Option<Picture>) returns (ok: bool)
      requires Valid() && (decoded.Some? ==> WellFormed(decoded.value))
      modifies this
      ensures Valid()
      ensures ok <==> decoded.Some?
      ensures originalImage == decoded
      ensures grayImage == if decoded.Some? then Some(GrayOf(cv, decoded.value)) else old(grayImage)
      ensures enhancedImage == old(enhancedImage) && results == old(results) && cropOffset == old(cropOffset)
    {
      originalImage := decoded;
      if decoded.None? {
        return false;
      }
      grayImage := Some(GrayOf(cv, decoded.value));
      return true;
    }

    /** src/spheroid_processor.py lines 77-147: the crop, which sets `crop_offset` (left as it was for an invalid
        crop), and the enhancement of the working raster, kept as `enhanced_image`. */
    method Prepare(p: Params) returns (working: Grid, enhanced: Grid)
      requires Valid() && grayImage.Some?
      modifies this`cropOffset, this`enhancedImage
      ensures Valid() && results == old(results)
      ensures grayImage == old(grayImage) && originalImage == old(originalImage)
      ensures working == Working(grayImage.value, p.crop)
      ensures enhanced == Enhance(cv, p, working) && enhancedImage == Some(enhanced)
      ensures cropOffset == NextCropOffset(old(cropOffset), p.crop, |grayImage.value|, |grayImage.value[0]|)
    {
      var gray := grayImage.value;
      var offset;
      working, offset := CropStep(gray, p.crop, cropOffset);
      assert FilterSound(cv) && IsImage(working);
      enhanced := Enhance(cv, p, working);
      cropOffset := offset;
      enhancedImage := Some(enhanced);
    }

    /** src/spheroid_processor.py lines 272-282: the results of a successful call are kept. */
    method Record(res: Results)
      requires Valid()
      modifies this`results
      ensures Valid() && results == Some(res)
      ensures grayImage == old(grayImage) && originalImage == old(originalImage)
      ensures cropOffset == old(cropOffset) && enhancedImage == old(enhancedImage)
    {
      results := Some(res);
    }

    /** src/spheroid_processor.py lines 37-284. Without a grey image nothing changes and `{}` comes back.
        Otherwise the outcome is `Analyse`; `enhanced_image` is set to the enhanced
        working raster before detection; `crop_offset` follows `NextCropOffset`; and
        `results` is replaced only when the masks come back. */
    method ProcessSpheroid(p: Params) returns (outcome: Outcome)
      requires Valid() && ValidParams(p)
      modifies this`cropOffset, this`enhancedImage, this`results
      ensures Valid()
      ensures grayImage.None? ==>
        && outcome == NotLoaded && enhancedImage == old(enhancedImage)
        && results == old(results) && cropOffset == old(cropOffset)
      ensures grayImage.Some? ==>
        var gray := grayImage.value;
        && outcome == Analyse(cv, p, gray, originalImage)
        && enhancedImage == Some(Enhance(cv, p, Working(gray, p.crop)))
        && cropOffset == NextCropOffset(old(cropOffset), p.crop, |gray|, |gray[0]|)
        && results == (if outcome.Segmented? then Some(outcome.res) else old(results))
    {
      if grayImage.None? {
        return NotLoaded;
      }
      var working, enhanced := Prepare(p);
      var gray := grayImage.value;
      var found, augmented := FindSpheroid(cv, p, gray, working, enhanced);
      outcome := Conclude(cv, p, gray, originalImage, found, augmented);
      if outcome.Segmented? {
        Record(outcome.res);
      }
    }
  }
}
