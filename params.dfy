/** The keyword arguments of `process_spheroid`. */
module Parameters {
  import opened Wrappers

  /** A crop percentage; the model takes percentages to be non-negative. */
  type Percent = r: real | r >= 0.0

  /** `crop_bounds = (h_start, h_end, v_start, v_end)`, in percent of width and height. */
  datatype CropBounds = CropBounds(hStart: Percent, hEnd: Percent, vStart: Percent, vEnd: Percent)

  datatype Params = Params(
    denoiseStrength: int,
    contrastClip: real,
    normalizeContrast: bool,
    useClahe: bool,
    edgeSensitivity: int,
    thresholdValue: int,
    morphologySize: nat,
    corePercentile: int,
    minArea: int,
    crop: Option<CropBounds>)

  /** `np.percentile` rejects a percentile outside 0..100. */
  predicate ValidParams(p: Params) {
    0 <= p.corePercentile <= 100
  }

  /** The default arguments of `process_spheroid`. */
  const Defaults := Params(10, 2.0, true, true, 0, 127, 5, 50, 100, None)

  /** The default arguments are accepted: the default `core_percentile` is the median,
      and there is no crop. */
  lemma DefaultsValid()
    ensures ValidParams(Defaults) && Defaults.corePercentile == 50 && Defaults.crop.None?
  {
  }
}
