/** Rasters of 8-bit samples as rectangular grids, the pointwise array arithmetic the
    processor applies to them (saturating add and subtract, bitwise and, inversion,
    binary thresholding), and the pixel counts and sums it reads off them. */
module Raster {

  /** A grey raster or a mask: rows of samples, row-major. */
  type Grid = seq<seq<int>>

  /** A boolean raster, as produced by a numpy comparison such as `mask > 0`. */
  type Cond = seq<seq<bool>>

  predicate IsGrid(g: Grid, h: nat, w: nat) {
    |g| == h && forall i | 0 <= i < h :: |g[i]| == w
  }

  predicate IsCond(c: Cond, h: nat, w: nat) {
    |c| == h && forall i | 0 <= i < h :: |c[i]| == w
  }

  function Height(g: Grid): nat { |g| }

  function Width(g: Grid): nat { if |g| == 0 then 0 else |g[0]| }

  /** Every sample is an unsigned 8-bit value. */
  predicate Bytes(g: Grid) {
    forall i, j | 0 <= i < |g| && 0 <= j < |g[i]| :: 0 <= g[i][j] <= 255
  }

  /** A non-empty rectangular 8-bit raster: what an image decoder hands over. */
  predicate IsImage(g: Grid) {
    |g| > 0 && |g[0]| > 0 && IsGrid(g, |g|, |g[0]|) && Bytes(g)
  }

  /** `a` is an 8-bit raster of the same height and width as `b`. */
  predicate Like(a: Grid, b: Grid) {
    IsImage(a) && IsImage(b) && |a| == |b| && |a[0]| == |b[0]|
  }

  /** Every sample is 0 or 255. */
  predicate IsMask(g: Grid) {
    forall i, j | 0 <= i < |g| && 0 <= j < |g[i]| :: g[i][j] == 0 || g[i][j] == 255
  }

  /** `np.zeros_like`: an all-zero raster of the given size. */
  function Zeros(h: nat, w: nat): (z: Grid)
    ensures IsGrid(z, h, w) && IsMask(z) && Bytes(z)
    ensures forall i, j | 0 <= i < h && 0 <= j < w :: z[i][j] == 0
  {
    seq(h, i => seq(w, j => 0))
  }

  /** `m[cond] = 255` written into a zero raster: 255 exactly where `cond` holds. */
  function MaskOf(c: Cond): (m: Grid)
    ensures |m| == |c| && forall i | 0 <= i < |c| :: |m[i]| == |c[i]|
    ensures IsMask(m) && Bytes(m)
    ensures forall i, j | 0 <= i < |c| && 0 <= j < |c[i]| :: (m[i][j] != 0 <==> c[i][j])
  {
    seq(|c|, i requires 0 <= i < |c| =>
      seq(|c[i]|, j requires 0 <= j < |c[i]| => if c[i][j] then 255 else 0))
  }

  /** `255 - g` on an 8-bit raster. */
  function Invert(g: Grid): (r: Grid)
    ensures |r| == |g| && forall i | 0 <= i < |g| :: |r[i]| == |g[i]|
    ensures forall i, j | 0 <= i < |g| && 0 <= j < |g[i]| :: r[i][j] + g[i][j] == 255
  {
    seq(|g|, i requires 0 <= i < |g| =>
      seq(|g[i]|, j requires 0 <= j < |g[i]| => 255 - g[i][j]))
  }

  /** `cv2.add` on two 8-bit rasters: the sum, saturated at 255. */
  function SatAdd(a: Grid, b: Grid): (r: Grid)
    requires IsGrid(b, |a|, Width(a)) && IsGrid(a, |a|, Width(a))
    ensures IsGrid(r, |a|, Width(a))
    ensures forall i, j | 0 <= i < |a| && 0 <= j < Width(a) ::
      r[i][j] <= 255 && r[i][j] <= a[i][j] + b[i][j] && (r[i][j] == a[i][j] + b[i][j] || r[i][j] == 255)
  {
    seq(|a|, i requires 0 <= i < |a| =>
      seq(Width(a), j requires 0 <= j < Width(a) =>
        if a[i][j] + b[i][j] > 255 then 255 else a[i][j] + b[i][j]))
  }

  /** `cv2.subtract` on two 8-bit rasters: the difference, saturated at 0. */
  function SatSub(a: Grid, b: Grid): (r: Grid)
    requires IsGrid(a, |a|, Width(a)) && IsGrid(b, |a|, Width(a))
    ensures IsGrid(r, |a|, Width(a))
    ensures forall i, j | 0 <= i < |a| && 0 <= j < Width(a) ::
      r[i][j] >= 0 && r[i][j] >= a[i][j] - b[i][j] && (r[i][j] == a[i][j] - b[i][j] || r[i][j] == 0)
  {
    seq(|a|, i requires 0 <= i < |a| =>
      seq(Width(a), j requires 0 <= j < Width(a) =>
        if a[i][j] - b[i][j] < 0 then 0 else a[i][j] - b[i][j]))
  }

  /** Bitwise and of two bytes; on mask values it is 255 exactly when both are 255. */
  function AndByte(x: int, y: int): (r: int)
    requires 0 <= x <= 255 && 0 <= y <= 255
    ensures 0 <= r <= 255
    ensures (x == 0 || x == 255) && (y == 0 || y == 255) ==>
      r == if x == 255 && y == 255 then 255 else 0
  {
    ((x as bv8) & (y as bv8)) as int
  }

  /** `cv2.bitwise_and` on two 8-bit rasters of one size. */
  function BitAnd(a: Grid, b: Grid): (r: Grid)
    requires IsGrid(a, |a|, Width(a)) && IsGrid(b, |a|, Width(a)) && Bytes(a) && Bytes(b)
    ensures IsGrid(r, |a|, Width(a)) && Bytes(r)
    ensures IsMask(a) && IsMask(b) ==>
      && IsMask(r)
      && forall i, j | 0 <= i < |a| && 0 <= j < Width(a) :: (r[i][j] != 0 <==> a[i][j] != 0 && b[i][j] != 0)
  {
    seq(|a|, i requires 0 <= i < |a| =>
      seq(Width(a), j requires 0 <= j < Width(a) => AndByte(a[i][j], b[i][j])))
  }

  /** `cv2.threshold(g, t, 255, THRESH_BINARY)`: 255 where the sample exceeds `t`, else 0. */
  function Binarize(g: Grid, t: int): (r: Grid)
    ensures |r| == |g| && forall i | 0 <= i < |g| :: |r[i]| == |g[i]|
    ensures IsMask(r) && Bytes(r)
    ensures forall i, j | 0 <= i < |g| && 0 <= j < |g[i]| :: (r[i][j] == 255 <==> g[i][j] > t)
  {
    seq(|g|, i requires 0 <= i < |g| =>
      seq(|g[i]|, j requires 0 <= j < |g[i]| => if g[i][j] > t then 255 else 0))
  }

  // ---------------------------------------------------------------------------
  // Counting and summing

  /** Number of non-zero samples of a row. */
  function RowCount(row: seq<int>): nat {
    if row == [] then 0 else RowCount(row[..|row| - 1]) + (if row[|row| - 1] != 0 then 1 else 0)
  }

  /** `np.count_nonzero`. */
  function Count(g: Grid): nat {
    if g == [] then 0 else Count(g[..|g| - 1]) + RowCount(g[|g| - 1])
  }

  function RowSum(row: seq<int>): int {
    if row == [] then 0 else RowSum(row[..|row| - 1]) + row[|row| - 1]
  }

  /** Sum of all samples; the mean compared against 127 is this over the pixel count. */
  function Sum(g: Grid): int {
    if g == [] then 0 else Sum(g[..|g| - 1]) + RowSum(g[|g| - 1])
  }

  /** Mask `c` is covered by the two masks `a` and `b`, which do not overlap: every
      non-zero sample of `c` is non-zero in exactly one of `a`, `b`, and both are zero
      where `c` is. */
  predicate Partition(a: Grid, b: Grid, c: Grid, h: nat, w: nat)
    requires IsGrid(a, h, w) && IsGrid(b, h, w) && IsGrid(c, h, w)
  {
    forall i, j | 0 <= i < h && 0 <= j < w ::
      (c[i][j] != 0 <==> a[i][j] != 0 || b[i][j] != 0) && !(a[i][j] != 0 && b[i][j] != 0)
  }

  lemma {:induction false} RowCountPartition(a: seq<int>, b: seq<int>, c: seq<int>)
    requires |a| == |b| == |c|
    requires forall j | 0 <= j < |c| ::
      (c[j] != 0 <==> a[j] != 0 || b[j] != 0) && !(a[j] != 0 && b[j] != 0)
    ensures RowCount(a) + RowCount(b) == RowCount(c)
  {
    if |c| > 0 {
      var n := |c| - 1;
      RowCountPartition(a[..n], b[..n], c[..n]);
    }
  }

  /** The counts of two masks that partition a third add up to its count. */
  lemma {:induction false} CountPartition(a: Grid, b: Grid, c: Grid, h: nat, w: nat)
    requires IsGrid(a, h, w) && IsGrid(b, h, w) && IsGrid(c, h, w)
    requires Partition(a, b, c, h, w)
    ensures Count(a) + Count(b) == Count(c)
  {
    if h > 0 {
      var n := h - 1;
      CountPartition(a[..n], b[..n], c[..n], n, w);
      RowCountPartition(a[n], b[n], c[n]);
    }
  }

  lemma {:induction false} RowCountSubset(a: seq<int>, c: seq<int>)
    requires |a| == |c| && forall j | 0 <= j < |c| :: a[j] != 0 ==> c[j] != 0
    ensures RowCount(a) <= RowCount(c)
  {
    if |c| > 0 {
      var n := |c| - 1;
      RowCountSubset(a[..n], c[..n]);
    }
  }

  /** A mask inside another counts no more pixels. */
  lemma {:induction false} CountSubset(a: Grid, c: Grid, h: nat, w: nat)
    requires IsGrid(a, h, w) && IsGrid(c, h, w)
    requires forall i, j | 0 <= i < h && 0 <= j < w :: a[i][j] != 0 ==> c[i][j] != 0
    ensures Count(a) <= Count(c)
  {
    if h > 0 {
      var n := h - 1;
      CountSubset(a[..n], c[..n], n, w);
      RowCountSubset(a[n], c[n]);
    }
  }

  lemma {:induction false} RowCountZero(row: seq<int>)
    requires forall j | 0 <= j < |row| :: row[j] == 0
    ensures RowCount(row) == 0
  {
    if row != [] {
      RowCountZero(row[..|row| - 1]);
    }
  }

  /** A raster with no non-zero sample counts zero. */
  lemma {:induction false} CountZero(g: Grid)
    requires forall i, j | 0 <= i < |g| && 0 <= j < |g[i]| :: g[i][j] == 0
    ensures Count(g) == 0
  {
    if g != [] {
      CountZero(g[..|g| - 1]);
      RowCountZero(g[|g| - 1]);
    }
  }

  lemma {:induction false} RowCountPositive(row: seq<int>, j: nat)
    requires j < |row| && row[j] != 0
    ensures RowCount(row) > 0
  {
    var n := |row| - 1;
    if j < n {
      RowCountPositive(row[..n], j);
    }
  }

  /** A raster with a non-zero sample has a positive count. */
  lemma {:induction false} CountPositive(g: Grid, i: nat, j: nat)
    requires i < |g| && j < |g[i]| && g[i][j] != 0
    ensures Count(g) > 0
  {
    var n := |g| - 1;
    if i < n {
      CountPositive(g[..n], i, j);
    } else {
      RowCountPositive(g[n], j);
    }
  }

  lemma {:induction false} RowSumInvert(row: seq<int>, inv: seq<int>)
    requires |inv| == |row|
    requires forall j | 0 <= j < |row| :: inv[j] + row[j] == 255
    ensures RowSum(inv) == 255 * |row| - RowSum(row)
  {
    if row != [] {
      var n := |row| - 1;
      RowSumInvert(row[..n], inv[..n]);
    }
  }

  lemma SizeStep(n: nat, w: nat)
    ensures 255 * ((n + 1) * w) == 255 * (n * w) + 255 * w
  {
  }

  /** Inverting every sample turns the sum `s` of `n` samples into `255 n - s`. */
  lemma {:induction false} SumInvert(g: Grid, h: nat, w: nat)
    requires IsGrid(g, h, w)
    ensures Sum(Invert(g)) == 255 * (h * w) - Sum(g)
  {
    if h > 0 {
      var n := h - 1;
      var inv := Invert(g);
      assert inv[..n] == Invert(g[..n]);
      SumInvert(g[..n], n, w);
      RowSumInvert(g[n], inv[n]);
      SizeStep(n, w);
    }
  }
}
