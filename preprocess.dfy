/** Preprocessing of the working raster: denoise, intensity stretch, local contrast
    enhancement, polarity normalisation, optional edge augmentation, and the binary
    mask with its morphological cleanup. */
module Preprocess {
  import opened Raster
  import opened Vision
  import opened Parameters
  import opened Arith

  /** `g.min()`: a lower bound of every sample that some sample attains. */
  function GridMin(g: Grid): (m: int)
    requires |g| > 0 && forall i | 0 <= i < |g| :: |g[i]| > 0
    ensures forall i, j | 0 <= i < |g| && 0 <= j < |g[i]| :: m <= g[i][j]
    ensures exists i | 0 <= i < |g| :: m in g[i]
  {
    var n := |g| - 1;
    var last := SeqMin(g[n]);
    assert forall j | 0 <= j < |g[n]| :: g[n][j] in g[n];
    if n == 0 then last
    else
      var rest := GridMin(g[..n]);
      assert forall i | 0 <= i < n :: g[..n][i] == g[i];
      Min(last, rest)
  }

  /** `g.max()`: an upper bound of every sample that some sample attains. */
  function GridMax(g: Grid): (m: int)
    requires |g| > 0 && forall i | 0 <= i < |g| :: |g[i]| > 0
    ensures forall i, j | 0 <= i < |g| && 0 <= j < |g[i]| :: g[i][j] <= m
    ensures exists i | 0 <= i < |g| :: m in g[i]
  {
    var n := |g| - 1;
    var last := SeqMax(g[n]);
    assert forall j | 0 <= j < |g[n]| :: g[n][j] in g[n];
    if n == 0 then last
    else
      var rest := GridMax(g[..n]);
      assert forall i | 0 <= i < n :: g[..n][i] == g[i];
      Max(last, rest)
  }

  /** `(v - lo) / (hi - lo) * 255` truncated to an integer, for `lo <= v <= hi`:
      `lo` goes to 0, `hi` to 255, and everything lands in 0..255. */
  function StretchValue(v: int, lo: int, hi: int): (r: int)
    requires lo < hi && lo <= v <= hi
    ensures 0 <= r <= 255
    ensures v == lo ==> r == 0
    ensures v == hi ==> r == 255
  {
    var d := hi - lo;
    DivMonotone(0, (v - lo) * 255, d);
    DivMonotone((v - lo) * 255, d * 255, d);
    DivOfMultiple(d, 255);
    (v - lo) * 255 / d
  }

  /** The stretch keeps the order of samples. */
  lemma StretchMonotone(a: int, b: int, lo: int, hi: int)
    requires lo < hi && lo <= a <= b <= hi
    ensures StretchValue(a, lo, hi) <= StretchValue(b, lo, hi)
  {
    DivMonotone((a - lo) * 255, (b - lo) * 255, hi - lo);
  }

  /** src/spheroid_processor.py lines 115-124: stretch the observed range `[min, max]` onto `[0, 255]`; a flat
      raster (max == min) passes through unchanged. */
  function Normalize(g: Grid): (r: Grid)
    requires IsImage(g)
    ensures Like(r, g)
    ensures GridMax(g) == GridMin(g) ==> r == g
    ensures GridMax(g) > GridMin(g) ==> forall i, j | 0 <= i < |g| && 0 <= j < |g[0]| ::
      && (g[i][j] == GridMin(g) ==> r[i][j] == 0)
      && (g[i][j] == GridMax(g) ==> r[i][j] == 255)
  {
    var lo, hi := GridMin(g), GridMax(g);
    if hi > lo then
      seq(|g|, i requires 0 <= i < |g| =>
        seq(|g[0]|, j requires 0 <= j < |g[0]| => StretchValue(g[i][j], lo, hi)))
    else g
  }

  /** Normalisation preserves the order of any two samples. */
  lemma NormalizePreservesOrder(g: Grid, i: nat, j: nat, k: nat, l: nat)
    requires IsImage(g)
    requires i < |g| && j < |g[0]| && k < |g| && l < |g[0]|
    requires g[i][j] <= g[k][l]
    ensures Normalize(g)[i][j] <= Normalize(g)[k][l]
  {
    if GridMax(g) > GridMin(g) {
      StretchMonotone(g[i][j], g[k][l], GridMin(g), GridMax(g));
    }
  }

  /** src/spheroid_processor.py lines 141-145: invert when the mean exceeds 127, i.e. when the sum of the `n`
      samples exceeds `127 n`. */
  function Polarity(g: Grid): (r: Grid)
    requires IsImage(g)
    ensures Like(r, g)
  {
    if Sum(g) > 127 * (|g| * |g[0]|) then Invert(g) else g
  }

  /** The raster is inverted exactly when its mean exceeds 127, and afterwards its mean
      is below 128. */
  lemma PolarityMean(g: Grid)
    requires IsImage(g)
    ensures var n := |g| * |g[0]|;
      && (Polarity(g) == Invert(g) <==> Sum(g) > 127 * n)
      && Sum(Polarity(g)) < 128 * n
  {
    var n := |g| * |g[0]|;
    assert n > 0 by {
      MulMonotone(|g|, 1, |g[0]|);
    }
    if Sum(g) > 127 * n {
      SumInvert(g, |g|, |g[0]|);
      assert Sum(Invert(g)) == 255 * n - Sum(g);
    } else {
      assert Polarity(g) != Invert(g) by {
        assert Polarity(g)[0][0] == g[0][0] != Invert(g)[0][0];
      }
    }
  }

  /** src/spheroid_processor.py lines 109-145: denoise, optional stretch, optional CLAHE, polarity. This is the
      raster stored as `enhanced_image`. */
  function Enhance(v: Vision, p: Params, working: Grid): (r: Grid)
    requires FilterSound(v) && IsImage(working)
    ensures Like(r, working)
  {
    var denoised := v.denoise(working, p.denoiseStrength);
    var normalized := if p.normalizeContrast then Normalize(denoised) else denoised;
    var enhanced := if p.useClahe then v.clahe(normalized, p.contrastClip) else normalized;
    Polarity(enhanced)
  }

  /** src/spheroid_processor.py lines 150-157: with a positive edge sensitivity, the dilated Canny edge map is
      added with saturation, so no sample decreases and none exceeds 255. */
  function Augment(v: Vision, p: Params, enhanced: Grid): (r: Grid)
    requires FilterSound(v) && IsImage(enhanced)
    ensures Like(r, enhanced)
    ensures p.edgeSensitivity <= 0 ==> r == enhanced
    ensures forall i, j | 0 <= i < |r| && 0 <= j < |r[0]| :: enhanced[i][j] <= r[i][j] <= 255
  {
    if p.edgeSensitivity > 0 then
      var edges := v.dilate(v.canny(enhanced, p.edgeSensitivity, p.edgeSensitivity * 2));
      SatAdd(enhanced, edges)
    else enhanced
  }

  /** src/spheroid_processor.py lines 160-171: binarise against `threshold_value`, open with a 3x3 kernel twice,
      then close twice with the `morphology_size` kernel, twice over. */
  function Detect(v: Vision, p: Params, augmented: Grid): (r: Grid)
    requires MorphSound(v) && IsImage(augmented)
    ensures Like(r, augmented)
  {
    var binary := Binarize(augmented, p.thresholdValue);
    var cleaned := v.morph(binary, Open, 3, 2);
    var closed := v.morph(cleaned, Close, p.morphologySize, 2);
    v.morph(closed, Close, p.morphologySize, 2)
  }
}
