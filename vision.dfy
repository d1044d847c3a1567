/** The image-processing primitives the processor borrows from OpenCV. Their algorithms
    are not part of this model: each is a function-valued field of `Vision`, and `Sound`
    states only the facts about their outputs that the processor's own logic relies on
    (sizes, the 8-bit range, masks, and the labelling convention of connected components). */
module Vision {
  import opened Raster

  /** A contour as returned by `cv2.findContours`: a closed polygon of pixel points. */
  type Contour = seq<(int, int)>

  /** One pixel of a three-channel raster, in OpenCV's blue, green, red order. */
  datatype Bgr = Bgr(b: int, g: int, r: int)

  type ColourGrid = seq<seq<Bgr>>

  predicate IsColour(c: ColourGrid) {
    && |c| > 0 && |c[0]| > 0
    && (forall i | 0 <= i < |c| :: |c[i]| == |c[0]|)
    && forall i, j | 0 <= i < |c| && 0 <= j < |c[i]| ::
         0 <= c[i][j].b <= 255 && 0 <= c[i][j].g <= 255 && 0 <= c[i][j].r <= 255
  }

  /** `cv2.MORPH_OPEN` or `cv2.MORPH_CLOSE`. */
  datatype MorphOp = Open | Close

  /** What `cv2.connectedComponentsWithStats` reports: the number of labels (label 0 is
      the background), the label of every pixel, and the area of every label. */
  datatype Labelling = Labelling(count: nat, labels: Grid, areas: seq<int>)

  /** The OpenCV calls of the pipeline, each with the arguments that vary per call.
      Fixed arguments (7x7 template and 21x21 search window of the denoiser, 8x8 CLAHE
      tiles, the 3x3 dilation kernel, 8-connectivity, external contours only, filled
      drawing) belong to the primitive. */
  datatype Vision = Vision(
    toGray: ColourGrid -> Grid,                       // cvtColor(BGR2GRAY)
    denoise: (Grid, int) -> Grid,                     // fastNlMeansDenoising(h = strength)
    clahe: (Grid, real) -> Grid,                      // createCLAHE(clipLimit).apply
    canny: (Grid, int, int) -> Grid,                  // Canny(low, high)
    dilate: Grid -> Grid,                             // dilate, 3x3 ones, 1 iteration
    morph: (Grid, MorphOp, nat, nat) -> Grid,         // morphologyEx(op, ones(k, k), iterations)
    findContours: Grid -> seq<Contour>,               // findContours(RETR_EXTERNAL)
    contourArea: Contour -> real,                     // contourArea
    fill: (nat, nat, Contour) -> Grid,                // drawContours(zeros(h, w), [c], -1, 255, -1)
    components: Grid -> Labelling,                    // connectedComponentsWithStats(connectivity = 8)
    drawOutlines: (ColourGrid, Grid, Grid, int, int) -> ColourGrid)  // outline drawing of the overlay

  /** A labelling of `g` as OpenCV produces it: one label per pixel, label 0 exactly on
      the zero pixels, every label below the reported count, one area per label. */
  predicate LabelsFit(lab: Labelling, g: Grid)
    requires IsImage(g)
  {
    && IsGrid(lab.labels, |g|, |g[0]|)
    && lab.count >= 1
    && |lab.areas| == lab.count
    && forall i, j | 0 <= i < |g| && 0 <= j < |g[0]| ::
         0 <= lab.labels[i][j] < lab.count && (lab.labels[i][j] == 0 <==> g[i][j] == 0)
  }

  /** Colour conversion keeps the size and gives an 8-bit raster. */
  ghost predicate GraySound(v: Vision) {
    forall c :: IsColour(c) ==>
      IsImage(v.toGray(c)) && |v.toGray(c)| == |c| && |v.toGray(c)[0]| == |c[0]|
  }

  /** Denoising, contrast equalisation, edge detection and dilation keep the size and
      the 8-bit range. */
  ghost predicate FilterSound(v: Vision) {
    && (forall g, k :: IsImage(g) ==> Like(v.denoise(g, k), g))
    && (forall g, clip :: IsImage(g) ==> Like(v.clahe(g, clip), g))
    && (forall g, lo, hi :: IsImage(g) ==> Like(v.canny(g, lo, hi), g))
    && (forall g :: IsImage(g) ==> Like(v.dilate(g), g))
  }

  /** Opening and closing keep the size and the 8-bit range, and leave an empty mask
      empty. */
  ghost predicate MorphSound(v: Vision) {
    && (forall g, op, k, n :: IsImage(g) ==> Like(v.morph(g, op, k, n), g))
    && (forall h: nat, w: nat, op, k, n :: h > 0 && w > 0 ==> v.morph(Zeros(h, w), op, k, n) == Zeros(h, w))
  }

  /** A filled contour is a mask of the requested size. */
  ghost predicate FillSound(v: Vision) {
    forall h, w, c :: IsGrid(v.fill(h, w, c), h, w) && IsMask(v.fill(h, w, c))
  }

  /** Connected components label every pixel as OpenCV does. */
  ghost predicate LabelSound(v: Vision) {
    forall g :: IsImage(g) ==> LabelsFit(v.components(g), g)
  }

  /** Outlines are drawn onto a copy of the picture, which keeps its size. */
  ghost predicate DrawSound(v: Vision) {
    forall c, core, border, x, y :: IsColour(c) ==>
      var d := v.drawOutlines(c, core, border, x, y);
      IsColour(d) && |d| == |c| && |d[0]| == |c[0]|
  }

  /** The facts about the primitives that the surrounding logic uses. */
  ghost predicate Sound(v: Vision) {
    GraySound(v) && FilterSound(v) && MorphSound(v) && FillSound(v) && LabelSound(v) && DrawSound(v)
  }
}
