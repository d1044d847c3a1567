/** Contour selection and the core/border split (src/spheroid_processor.py lines 173-233): the largest contour
    of at least `min_area` becomes the spheroid mask; the spheroid's pixels darker than
    a percentile of their ORIGINAL intensities form the raw core; after smoothing, only
    the largest connected component is kept; the border is the rest of the spheroid. */
module Segmentation {
  import opened Wrappers
  import opened Raster
  import opened Vision
  import opened Parameters
  import opened Select
  import opened Percentiles
  import opened Arith

  /** The three cropped masks of a found spheroid. */
  datatype Split = Split(spheroid: Grid, core: Grid, border: Grid)

  // ---------------------------------------------------------------------------
  // Spheroid selection

  /** `cv2.contourArea` of every contour, in list order. */
  function Areas(v: Vision, contours: seq<Contour>): (a: seq<real>)
    ensures |a| == |contours| && forall k | 0 <= k < |a| :: a[k] == v.contourArea(contours[k])
  {
    seq(|contours|, k requires 0 <= k < |contours| => v.contourArea(contours[k]))
  }

  /** src/spheroid_processor.py lines 174-190: the filled mask of the first largest contour of area at least
      `min_area`, or `None` when there is no contour or none is large enough. */
  function ChooseSpheroid(v: Vision, minArea: int, binary: Grid): (r: Option<Grid>)
    requires FillSound(v) && IsImage(binary)
    ensures r.None? <==> forall k | 0 <= k < |v.findContours(binary)| ::
      v.contourArea(v.findContours(binary)[k]) < minArea as real
    ensures r.Some? ==> IsGrid(r.value, |binary|, |binary[0]|) && IsMask(r.value) && Bytes(r.value)
  {
    var contours := v.findContours(binary);
    if |contours| == 0 then None
    else
      match FirstLargest(Areas(v, contours), minArea)
      case None => None
      case Some(k) => Some(v.fill(|binary|, |binary[0]|, contours[k]))
  }

  /** The exits with empty results (src/spheroid_processor.py lines 176-183 and
      204-205): no contour at all or none reaching `min_area`, or the chosen contour
      fills no pixel. */
  predicate NoSpheroidIn(v: Vision, minArea: int, binary: Grid)
    requires FillSound(v) && IsImage(binary)
  {
    || (forall k | 0 <= k < |v.findContours(binary)| :: v.contourArea(v.findContours(binary)[k]) < minArea as real)
    || Count(ChooseSpheroid(v, minArea, binary).value) == 0
  }

  // ---------------------------------------------------------------------------
  // Raw intensities inside the spheroid

  function RowValues(mask: seq<int>, gray: seq<int>): seq<int>
    requires |mask| == |gray|
  {
    if mask == [] then []
    else
      var n := |mask| - 1;
      RowValues(mask[..n], gray[..n]) + (if mask[n] > 0 then [gray[n]] else [])
  }

  /** `gray[mask > 0]`: the intensities under the mask, in row-major order. */
  function SpheroidValues(mask: Grid, gray: Grid): seq<int>
    requires |mask| == |gray| && forall i | 0 <= i < |mask| :: |mask[i]| == |gray[i]|
  {
    if mask == [] then []
    else
      var n := |mask| - 1;
      SpheroidValues(mask[..n], gray[..n]) + RowValues(mask[n], gray[n])
  }

  lemma {:induction false} RowValuesLength(mask: seq<int>, gray: seq<int>)
    requires |mask| == |gray| && forall j | 0 <= j < |mask| :: mask[j] >= 0
    ensures |RowValues(mask, gray)| == RowCount(mask)
  {
    if mask != [] {
      var n := |mask| - 1;
      RowValuesLength(mask[..n], gray[..n]);
    }
  }

  /** One intensity is collected per mask pixel: the spheroid is empty exactly when no
      intensity is collected. */
  lemma {:induction false} ValuesLength(mask: Grid, gray: Grid, h: nat, w: nat)
    requires IsGrid(mask, h, w) && IsGrid(gray, h, w) && IsMask(mask)
    ensures |SpheroidValues(mask, gray)| == Count(mask)
  {
    if h > 0 {
      var n := h - 1;
      ValuesLength(mask[..n], gray[..n], n, w);
      RowValuesLength(mask[n], gray[n]);
    }
  }

  lemma {:induction false} RowValuesComplete(mask: seq<int>, gray: seq<int>, j: nat)
    requires |mask| == |gray| && j < |mask| && mask[j] > 0
    ensures gray[j] in RowValues(mask, gray)
  {
    var n := |mask| - 1;
    if j < n {
      RowValuesComplete(mask[..n], gray[..n], j);
    }
  }

  /** Every mask pixel's intensity is among the collected ones. */
  lemma {:induction false} ValuesComplete(mask: Grid, gray: Grid, i: nat, j: nat)
    requires |mask| == |gray| && forall r | 0 <= r < |mask| :: |mask[r]| == |gray[r]|
    requires i < |mask| && j < |mask[i]| && mask[i][j] > 0
    ensures gray[i][j] in SpheroidValues(mask, gray)
  {
    var n := |mask| - 1;
    if i < n {
      ValuesComplete(mask[..n], gray[..n], i, j);
    } else {
      RowValuesComplete(mask[n], gray[n], j);
    }
  }

  lemma {:induction false} RowValuesSound(mask: seq<int>, gray: seq<int>, x: int)
    requires |mask| == |gray| && x in RowValues(mask, gray)
    ensures exists j | 0 <= j < |mask| :: mask[j] > 0 && gray[j] == x
  {
    var n := |mask| - 1;
    if x in RowValues(mask[..n], gray[..n]) {
      RowValuesSound(mask[..n], gray[..n], x);
      var j :| 0 <= j < n && mask[..n][j] > 0 && gray[..n][j] == x;
      assert mask[j] > 0 && gray[j] == x;
    } else {
      assert mask[n] > 0 && gray[n] == x;
    }
  }

  /** Every collected intensity is the intensity of some mask pixel. */
  lemma {:induction false} ValuesSound(mask: Grid, gray: Grid, x: int)
    requires |mask| == |gray| && forall r | 0 <= r < |mask| :: |mask[r]| == |gray[r]|
    requires x in SpheroidValues(mask, gray)
    ensures exists i, j | 0 <= i < |mask| && 0 <= j < |mask[i]| :: mask[i][j] > 0 && gray[i][j] == x
  {
    var n := |mask| - 1;
    if x in SpheroidValues(mask[..n], gray[..n]) {
      ValuesSound(mask[..n], gray[..n], x);
      var i, j :| 0 <= i < n && 0 <= j < |mask[..n][i]| && mask[..n][i][j] > 0 && gray[..n][i][j] == x;
      assert mask[i][j] > 0 && gray[i][j] == x;
    } else {
      RowValuesSound(mask[n], gray[n], x);
      var j :| 0 <= j < |mask[n]| && mask[n][j] > 0 && gray[n][j] == x;
      assert mask[n][j] > 0 && gray[n][j] == x;
    }
  }

  /** The core threshold lies between the smallest and the largest intensity of the
      spheroid's pixels, and both are attained by some spheroid pixel. */
  lemma ThresholdWithinSpheroid(mask: Grid, gray: Grid, h: nat, w: nat, q: int)
    requires IsGrid(mask, h, w) && IsGrid(gray, h, w) && 0 <= q <= 100
    requires |SpheroidValues(mask, gray)| > 0
    ensures var values := SpheroidValues(mask, gray);
      var lo, hi := SeqMin(values), SeqMax(values);
      && (forall i, j | 0 <= i < h && 0 <= j < w && mask[i][j] > 0 :: lo <= gray[i][j] <= hi)
      && (exists i, j | 0 <= i < h && 0 <= j < w :: mask[i][j] > 0 && gray[i][j] == lo)
      && (exists i, j | 0 <= i < h && 0 <= j < w :: mask[i][j] > 0 && gray[i][j] == hi)
      && lo as real <= Percentile(values, q) <= hi as real
  {
    var values := SpheroidValues(mask, gray);
    forall i, j | 0 <= i < h && 0 <= j < w && mask[i][j] > 0
      ensures SeqMin(values) <= gray[i][j] <= SeqMax(values)
    {
      ValuesComplete(mask, gray, i, j);
    }
    ValuesSound(mask, gray, SeqMin(values));
    ValuesSound(mask, gray, SeqMax(values));
  }

  // ---------------------------------------------------------------------------
  // Core

  /** `(spheroid_mask > 0) & (gray_for_core < core_threshold)`. */
  function CoreCondition(sph: Grid, gray: Grid, t: real): (c: Cond)
    requires |gray| == |sph| && forall i | 0 <= i < |sph| :: |gray[i]| == |sph[i]|
    ensures |c| == |sph| && forall i | 0 <= i < |sph| :: |c[i]| == |sph[i]|
  {
    seq(|sph|, i requires 0 <= i < |sph| =>
      seq(|sph[i]|, j requires 0 <= j < |sph[i]| => sph[i][j] > 0 && (gray[i][j] as real) < t))
  }

  /** `labels == k`. */
  function LabelIs(labels: Grid, k: int): (c: Cond)
    ensures |c| == |labels| && forall i | 0 <= i < |labels| :: |c[i]| == |labels[i]|
    ensures forall i, j | 0 <= i < |labels| && 0 <= j < |labels[i]| :: (c[i][j] <==> labels[i][j] == k)
  {
    seq(|labels|, i requires 0 <= i < |labels| =>
      seq(|labels[i]|, j requires 0 <= j < |labels[i]| => labels[i][j] == k))
  }

  /** src/spheroid_processor.py lines 216-218: opening then closing with a 5x5 kernel, once each. */
  function Smooth(v: Vision, raw: Grid): (r: Grid)
    requires MorphSound(v) && IsImage(raw)
    ensures Like(r, raw)
  {
    v.morph(v.morph(raw, Open, 5, 1), Close, 5, 1)
  }

  /** src/spheroid_processor.py line 226: `1 + argmax(areas[1:])`, the first foreground label of largest area. */
  function LargestLabel(lab: Labelling): (k: nat)
    requires lab.count > 1 && |lab.areas| == lab.count
    ensures 1 <= k < lab.count
    ensures forall j | 1 <= j < lab.count :: lab.areas[j] <= lab.areas[k]
    ensures forall j | 1 <= j < k :: lab.areas[j] < lab.areas[k]
  {
    var fg := lab.areas[1..];
    var m := FirstArgmax(fg);
    assert forall j | 1 <= j < lab.count :: lab.areas[j] == fg[j - 1];
    1 + m
  }

  /** src/spheroid_processor.py lines 223-227: a mask of the largest foreground component, empty when the
      labelling has no foreground label. */
  function KeepLargest(lab: Labelling, h: nat, w: nat): (r: Grid)
    requires IsGrid(lab.labels, h, w) && |lab.areas| == lab.count
    ensures IsGrid(r, h, w) && IsMask(r) && Bytes(r)
    ensures lab.count <= 1 ==> forall i, j | 0 <= i < h && 0 <= j < w :: r[i][j] == 0
    ensures lab.count > 1 ==> forall i, j | 0 <= i < h && 0 <= j < w ::
      (r[i][j] != 0 <==> lab.labels[i][j] == LargestLabel(lab))
  {
    if lab.count > 1 then MaskOf(LabelIs(lab.labels, LargestLabel(lab))) else Zeros(h, w)
  }

  /** src/spheroid_processor.py lines 211-230: the raw core (spheroid pixels strictly below the threshold `t`),
      smoothed, reduced to its largest component, and masked with the spheroid. */
  function CoreOf(v: Vision, sph: Grid, working: Grid, t: real): (core: Grid)
    requires MorphSound(v) && LabelSound(v) && IsImage(working) && IsGrid(sph, |working|, |working[0]|) && IsMask(sph) && Bytes(sph)
    ensures IsGrid(core, |working|, |working[0]|) && Bytes(core) && IsMask(core)
    ensures forall i, j | 0 <= i < |working| && 0 <= j < |working[0]| :: core[i][j] != 0 ==> sph[i][j] != 0
  {
    var h, w := |working|, |working[0]|;
    var raw := MaskOf(CoreCondition(sph, working, t));
    var kept := KeepLargest(v.components(Smooth(v, raw)), h, w);
    BitAnd(kept, sph)
  }

  /** src/spheroid_processor.py lines 174-233 from the cleaned binary mask on: `None` for the empty-result exits
      (no contour, none of `min_area`, no spheroid pixel), otherwise the three masks. */
  function Segment(v: Vision, p: Params, binary: Grid, working: Grid): (r: Option<Split>)
    requires FillSound(v) && MorphSound(v) && LabelSound(v) && ValidParams(p) && IsImage(working) && Like(binary, working)
    ensures r.None? <==> NoSpheroidIn(v, p.minArea, binary)
  {
    match ChooseSpheroid(v, p.minArea, binary)
    case None => None
    case Some(sph) =>
      var values := SpheroidValues(sph, working);
      ValuesLength(sph, working, |working|, |working[0]|);
      if |values| == 0 then None
      else
        var core := CoreOf(v, sph, working, Percentile(values, p.corePercentile));
        Some(Split(sph, core, SatSub(sph, core)))
  }

  // ---------------------------------------------------------------------------
  // The in-place writes

  /** `m = zeros(h, w); m[cond] = 255`, written element by element into an array. */
  method MarkWhere(c: Cond, h: nat, w: nat) returns (m: Grid)
    requires IsCond(c, h, w)
    ensures m == MaskOf(c)
  {
    var a := new int[h, w]((i, j) => 0);
    for i := 0 to h
      invariant forall r, s | 0 <= r < h && 0 <= s < w :: a[r, s] == if r < i && c[r][s] then 255 else 0
    {
      for j := 0 to w
        invariant forall r, s | 0 <= r < h && 0 <= s < w ::
          a[r, s] == if (r < i || (r == i && s < j)) && c[r][s] then 255 else 0
      {
        if c[i][j] {
          a[i, j] := 255;
        }
      }
    }
    m := seq(h, i requires 0 <= i < h reads a => seq(w, j requires 0 <= j < w reads a => a[i, j]));
    ghost var expected := MaskOf(c);
    forall i | 0 <= i < h ensures m[i] == expected[i] {
      assert |m[i]| == |expected[i]|;
    }
    assert m == expected;
  }

  /** src/spheroid_processor.py lines 223-227 as the source performs them: the largest component marked in a
      zero array. */
  method KeepLargestMask(lab: Labelling, h: nat, w: nat) returns (kept: Grid)
    requires IsGrid(lab.labels, h, w) && |lab.areas| == lab.count
    ensures kept == KeepLargest(lab, h, w)
  {
    kept := Zeros(h, w);
    if lab.count > 1 {
      kept := MarkWhere(LabelIs(lab.labels, LargestLabel(lab)), h, w);
    }
  }

  /** src/spheroid_processor.py lines 211-230 as the source performs them, with the raw core and the kept
      component written in place into zero arrays. */
  method CoreMask(v: Vision, sph: Grid, working: Grid, t: real) returns (core: Grid)
    requires MorphSound(v) && LabelSound(v) && IsImage(working) && IsGrid(sph, |working|, |working[0]|) && IsMask(sph) && Bytes(sph)
    ensures core == CoreOf(v, sph, working, t)
  {
    var h, w := |working|, |working[0]|;
    var raw := MarkWhere(CoreCondition(sph, working, t), h, w);
    var kept := KeepLargestMask(v.components(Smooth(v, raw)), h, w);
    core := BitAnd(kept, sph);
  }

  /** src/spheroid_processor.py lines 174-233 as the source performs them. */
  method SplitMasks(v: Vision, p: Params, binary: Grid, working: Grid) returns (r: Option<Split>)
    requires FillSound(v) && MorphSound(v) && LabelSound(v) && ValidParams(p) && IsImage(working) && Like(binary, working)
    ensures r == Segment(v, p, binary, working)
  {
    var chosen := ChooseSpheroid(v, p.minArea, binary);
    if chosen.None? {
      return None;
    }
    var sph := chosen.value;
    var values := SpheroidValues(sph, working);
    if |values| == 0 {
      return None;
    }
    var core := CoreMask(v, sph, working, Percentile(values, p.corePercentile));
    r := Some(Split(sph, core, SatSub(sph, core)));
  }

  // ---------------------------------------------------------------------------
  // Properties of the split

  /** The raw core holds exactly the spheroid pixels strictly darker than the
      threshold, so it lies inside the spheroid and counts no more pixels. */
  lemma RawCoreInsideSpheroid(sph: Grid, gray: Grid, t: real, h: nat, w: nat)
    requires IsGrid(sph, h, w) && IsGrid(gray, h, w) && IsMask(sph)
    ensures var raw := MaskOf(CoreCondition(sph, gray, t));
      && IsGrid(raw, h, w)
      && (forall i, j | 0 <= i < h && 0 <= j < w :: (raw[i][j] != 0 <==> sph[i][j] != 0 && (gray[i][j] as real) < t))
      && Count(raw) <= Count(sph)
  {
    var raw := MaskOf(CoreCondition(sph, gray, t));
    CountSubset(raw, sph, h, w);
  }

  /** With `core_percentile = 0` the threshold is the smallest intensity in the
      spheroid, so no spheroid pixel is strictly below it and the raw core is empty. */
  lemma PercentileZeroRawCoreEmpty(sph: Grid, gray: Grid, h: nat, w: nat)
    requires IsGrid(sph, h, w) && IsGrid(gray, h, w) && IsMask(sph)
    requires |SpheroidValues(sph, gray)| > 0
    ensures forall i, j | 0 <= i < h && 0 <= j < w ::
      !CoreCondition(sph, gray, Percentile(SpheroidValues(sph, gray), 0))[i][j]
  {
    var values := SpheroidValues(sph, gray);
    var c := CoreCondition(sph, gray, Percentile(values, 0));
    forall i, j | 0 <= i < h && 0 <= j < w ensures !c[i][j] {
      if sph[i][j] > 0 {
        ValuesComplete(sph, gray, i, j);
      }
    }
  }

  /** With `core_percentile = 100` the threshold is the largest intensity, and pixels
      AT that intensity fail the strict comparison: they stay out of the raw core. */
  lemma PercentileHundredKeepsBrightest(sph: Grid, gray: Grid, h: nat, w: nat, i: nat, j: nat)
    requires IsGrid(sph, h, w) && IsGrid(gray, h, w) && IsMask(sph)
    requires |SpheroidValues(sph, gray)| > 0
    requires i < h && j < w && sph[i][j] != 0 && gray[i][j] == SeqMax(SpheroidValues(sph, gray))
    ensures MaskOf(CoreCondition(sph, gray, Percentile(SpheroidValues(sph, gray), 100)))[i][j] == 0
  {
  }

  /** A lower `core_percentile` gives a smaller, darker raw core: every raw-core pixel
      at `q1` is a raw-core pixel at any `q2 >= q1`, so its count is no larger. */
  lemma RawCoreMonotone(sph: Grid, gray: Grid, h: nat, w: nat, q1: int, q2: int)
    requires IsGrid(sph, h, w) && IsGrid(gray, h, w) && IsMask(sph)
    requires |SpheroidValues(sph, gray)| > 0 && 0 <= q1 <= q2 <= 100
    ensures var values := SpheroidValues(sph, gray);
      var raw1 := MaskOf(CoreCondition(sph, gray, Percentile(values, q1)));
      var raw2 := MaskOf(CoreCondition(sph, gray, Percentile(values, q2)));
      && (forall i, j | 0 <= i < h && 0 <= j < w :: raw1[i][j] != 0 ==> raw2[i][j] != 0)
      && Count(raw1) <= Count(raw2)
  {
    var values := SpheroidValues(sph, gray);
    var t1, t2 := Percentile(values, q1), Percentile(values, q2);
    PercentileMonotone(values, q1, q2);
    var raw1 := MaskOf(CoreCondition(sph, gray, t1));
    var raw2 := MaskOf(CoreCondition(sph, gray, t2));
    CountSubset(raw1, raw2, h, w);
  }

  /** Subtracting a core that lies inside the spheroid from the spheroid partitions
      the spheroid into core and border. */
  lemma CoreBorderPartition(sph: Grid, core: Grid, h: nat, w: nat)
    requires IsGrid(sph, h, w) && IsGrid(core, h, w) && IsMask(sph) && IsMask(core) && h > 0
    requires forall i, j | 0 <= i < h && 0 <= j < w :: core[i][j] != 0 ==> sph[i][j] != 0
    ensures var border := SatSub(sph, core);
      && IsGrid(border, h, w) && IsMask(border)
      && Partition(core, border, sph, h, w)
      && Count(core) + Count(border) == Count(sph)
  {
    assert Width(sph) == w;
    var border := SatSub(sph, core);
    forall i, j | 0 <= i < h && 0 <= j < w
      ensures border[i][j] == 0 || border[i][j] == 255
      ensures (sph[i][j] != 0 <==> core[i][j] != 0 || border[i][j] != 0) && !(core[i][j] != 0 && border[i][j] != 0)
    {
    }
    assert IsMask(border);
    CountPartition(core, border, sph, h, w);
  }

  /** The split of a found spheroid: three masks of the working size; core and border
      partition the spheroid, so the core lies inside it and their counts add up to
      its (positive) count. */
  lemma SegmentPartition(v: Vision, p: Params, binary: Grid, working: Grid)
    requires FillSound(v) && MorphSound(v) && LabelSound(v) && ValidParams(p) && IsImage(working) && Like(binary, working)
    requires Segment(v, p, binary, working).Some?
    ensures var s := Segment(v, p, binary, working).value;
      var h, w := |working|, |working[0]|;
      && IsGrid(s.spheroid, h, w) && IsGrid(s.core, h, w) && IsGrid(s.border, h, w)
      && IsMask(s.spheroid) && IsMask(s.core) && IsMask(s.border)
      && Partition(s.core, s.border, s.spheroid, h, w)
      && Count(s.core) + Count(s.border) == Count(s.spheroid) > 0
  {
    var s := Segment(v, p, binary, working).value;
    CoreBorderPartition(s.spheroid, s.core, |working|, |working[0]|);
  }

  /** A core computed from an empty raw core is empty, and the border is the whole
      spheroid: an empty mask smooths to nothing and labels no foreground. */
  lemma EmptyRawCoreAllBorder(v: Vision, sph: Grid, working: Grid, t: real)
    requires MorphSound(v) && LabelSound(v) && IsImage(working) && IsGrid(sph, |working|, |working[0]|) && IsMask(sph) && Bytes(sph)
    requires forall i, j | 0 <= i < |working| && 0 <= j < |working[0]| :: !CoreCondition(sph, working, t)[i][j]
    ensures var core := CoreOf(v, sph, working, t);
      Count(core) == 0 && SatSub(sph, core) == sph
  {
    var h, w := |working|, |working[0]|;
    var raw := MaskOf(CoreCondition(sph, working, t));
    assert raw == Zeros(h, w) by {
      forall i | 0 <= i < h ensures raw[i] == Zeros(h, w)[i] {
        assert |raw[i]| == w;
      }
    }
    assert Smooth(v, raw) == raw;
    var kept := KeepLargest(v.components(raw), h, w);
    assert forall i, j | 0 <= i < h && 0 <= j < w :: kept[i][j] == 0;
    var core := BitAnd(kept, sph);
    assert forall i, j | 0 <= i < h && 0 <= j < w :: core[i][j] == 0;
    ZeroCoreAllBorder(sph, core, h, w);
  }

  /** Subtracting an empty core leaves the spheroid as it is. */
  lemma ZeroCoreAllBorder(sph: Grid, core: Grid, h: nat, w: nat)
    requires IsGrid(sph, h, w) && IsGrid(core, h, w) && IsMask(sph) && h > 0
    requires forall i, j | 0 <= i < h && 0 <= j < w :: core[i][j] == 0
    ensures Count(core) == 0 && SatSub(sph, core) == sph
  {
    assert Width(sph) == w;
    CountZero(core);
    var border := SatSub(sph, core);
    forall i | 0 <= i < h ensures border[i] == sph[i] {
      assert |border[i]| == |sph[i]|;
    }
  }

  /** With `core_percentile = 0` a found spheroid has an empty core and is all border. */
  lemma PercentileZeroAllBorder(v: Vision, p: Params, binary: Grid, working: Grid)
    requires FillSound(v) && MorphSound(v) && LabelSound(v) && ValidParams(p) && IsImage(working) && Like(binary, working)
    requires p.corePercentile == 0
    requires Segment(v, p, binary, working).Some?
    ensures var s := Segment(v, p, binary, working).value;
      Count(s.core) == 0 && s.border == s.spheroid
  {
    var h, w := |working|, |working[0]|;
    var sph := ChooseSpheroid(v, p.minArea, binary).value;
    ValuesLength(sph, working, h, w);
    PercentileZeroCore(v, sph, working);
  }

  /** The core of a spheroid at `core_percentile = 0` is empty and leaves the whole
      spheroid as border. */
  lemma PercentileZeroCore(v: Vision, sph: Grid, working: Grid)
    requires MorphSound(v) && LabelSound(v) && IsImage(working)
    requires IsGrid(sph, |working|, |working[0]|) && IsMask(sph) && Bytes(sph)
    requires |SpheroidValues(sph, working)| > 0
    ensures var core := CoreOf(v, sph, working, Percentile(SpheroidValues(sph, working), 0));
      Count(core) == 0 && SatSub(sph, core) == sph
  {
    var t := Percentile(SpheroidValues(sph, working), 0);
    PercentileZeroRawCoreEmpty(sph, working, |working|, |working[0]|);
    EmptyRawCoreAllBorder(v, sph, working, t);
  }
}
