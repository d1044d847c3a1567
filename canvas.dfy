/** Canvas placement: a mask of the working region is written into an all-zero raster
    of the full image size by numpy slice assignment at a pixel offset. */
module Canvas {
  import opened Wrappers
  import opened Raster

  /** Length of the slice `start : start + len` on an axis of size `n` (non-negative
      start): numpy clips the slice to the axis. */
  function SliceLen(start: nat, len: nat, n: nat): (r: nat)
    ensures r <= len && start + r <= n + (if start >= n then start - n else 0)
    ensures start + len <= n ==> r == len
    ensures start >= n ==> r == 0
    ensures start < n ==> r == if start + len <= n then len else n - start
  {
    if start >= n then 0 else if start + len > n then n - start else len
  }

  /** Numpy's broadcast rule for writing an axis of length `src` into a slice of length
      `dst`: they are equal, or the source axis has length 1. */
  predicate Broadcasts(src: nat, dst: nat) {
    src == dst || src == 1
  }

  /** Whether `full[y:y+ch, x:x+cw] = m` succeeds on an `h` x `w` canvas. */
  predicate Fits(h: nat, w: nat, ch: nat, cw: nat, y: nat, x: nat) {
    Broadcasts(ch, SliceLen(y, ch, h)) && Broadcasts(cw, SliceLen(x, cw, w))
  }

  /** A window inside the canvas always receives the mask; a mask of more than one row
      (column) whose window sticks out below (to the right of) the canvas never does;
      a single pixel is accepted at any offset, even past the edge. */
  lemma FitsWindow(h: nat, w: nat, ch: nat, cw: nat, y: nat, x: nat)
    ensures y + ch <= h && x + cw <= w ==> Fits(h, w, ch, cw, y, x)
    ensures ch > 1 && y + ch > h ==> !Fits(h, w, ch, cw, y, x)
    ensures cw > 1 && x + cw > w ==> !Fits(h, w, ch, cw, y, x)
    ensures ch == 1 && cw == 1 ==> Fits(h, w, ch, cw, y, x)
  {
  }

  /** An `h` x `w` canvas that holds `m` inside the window at row `y`, column `x`
      (as far as the canvas reaches) and 0 everywhere else. */
  predicate Placed(full: Grid, m: Grid, h: nat, w: nat, y: nat, x: nat)
    requires IsGrid(m, |m|, Width(m))
  {
    && IsGrid(full, h, w)
    && forall i, j | 0 <= i < h && 0 <= j < w ::
         full[i][j] == if y <= i < y + |m| && x <= j < x + Width(m) then m[i - y][j - x] else 0
  }

  /** `full = zeros(h, w); full[y:y+ch, x:x+cw] = m`, or `None` where numpy raises
      because the clipped slice cannot receive `m`. On success the canvas holds `m`
      inside the window at the offset and 0 everywhere else. */
  function Paste(h: nat, w: nat, m: Grid, y: nat, x: nat): (r: Option<Grid>)
    requires IsGrid(m, |m|, Width(m))
    ensures r.Some? <==> Fits(h, w, |m|, Width(m), y, x)
    ensures r.Some? ==> Placed(r.value, m, h, w, y, x)
  {
    if !Fits(h, w, |m|, Width(m), y, x) then None
    else
      Some(seq(h, i requires 0 <= i < h =>
        seq(w, j requires 0 <= j < w =>
          if y <= i < y + |m| && x <= j < x + Width(m) then m[i - y][j - x] else 0)))
  }

  /** The slice assignment of src/spheroid_processor.py lines 243-251, performed in
      place on a fresh zero array. */
  method PlaceOnCanvas(h: nat, w: nat, m: Grid, y: nat, x: nat) returns (r: Option<Grid>)
    requires IsGrid(m, |m|, Width(m))
    ensures r == Paste(h, w, m, y, x)
  {
    var ch, cw := |m|, Width(m);
    if !Fits(h, w, ch, cw, y, x) {
      return None;
    }
    var full := new int[h, w]((i, j) => 0);
    var th, tw := SliceLen(y, ch, h), SliceLen(x, cw, w);
    for i := 0 to th
      invariant forall a, b | 0 <= a < h && 0 <= b < w ::
        full[a, b] == if y <= a < y + i && x <= b < x + tw then m[a - y][b - x] else 0
    {
      for j := 0 to tw
        invariant forall a, b | 0 <= a < h && 0 <= b < w ::
          full[a, b] == if (y <= a < y + i && x <= b < x + tw) || (a == y + i && x <= b < x + j)
                        then m[a - y][b - x] else 0
      {
        full[y + i, x + j] := m[i][j];
      }
    }
    var g := seq(h, i requires 0 <= i < h reads full => seq(w, j requires 0 <= j < w reads full => full[i, j]));
    ghost var expected := Paste(h, w, m, y, x).value;
    forall i | 0 <= i < h ensures g[i] == expected[i] {
      forall j | 0 <= j < w ensures g[i][j] == expected[i][j] {
        if y <= i < y + ch && x <= j < x + cw {
          assert th == ch && tw == cw;
        }
      }
    }
    assert g == expected;
    r := Some(g);
  }

  /** Pasting a mask the size of the canvas at the origin gives the mask itself. */
  lemma PasteAtOrigin(h: nat, w: nat, m: Grid)
    requires IsGrid(m, h, w) && h > 0
    ensures Paste(h, w, m, 0, 0) == Some(m)
  {
    assert Width(m) == w;
    assert Fits(h, w, |m|, Width(m), 0, 0);
    var r := Paste(h, w, m, 0, 0).value;
    forall i | 0 <= i < h ensures r[i] == m[i] {
      forall j | 0 <= j < w ensures r[i][j] == m[i][j] {
      }
    }
    assert r == m;
  }

  /** A mask of a region that lies inside the canvas, pasted at the region's corner,
      fits, and the canvas equals the mask inside the region and 0 outside it. */
  lemma PasteInsideRegion(h: nat, w: nat, m: Grid, y: nat, x: nat, i: nat, j: nat)
    requires 0 < |m| && y + |m| <= h && IsGrid(m, |m|, Width(m)) && 0 < Width(m) && x + Width(m) <= w
    requires i < h && j < w
    ensures Paste(h, w, m, y, x).Some?
    ensures var full := Paste(h, w, m, y, x).value;
      full[i][j] != 0 ==> y <= i < y + |m| && x <= j < x + Width(m) && m[i - y][j - x] == full[i][j]
  {
  }

  /** How many of the first `l` positions of an axis fall in a window of length `n`
      starting at `x`. */
  function Clip(l: nat, x: nat, n: nat): (r: nat)
    ensures r <= n
  {
    if l <= x then 0 else if l - x >= n then n else l - x
  }

  lemma {:induction false} RowCountShift(row: seq<int>, src: seq<int>, x: nat, l: nat)
    requires l <= |row| && x + |src| <= |row|
    requires forall j | 0 <= j < |row| :: row[j] == if x <= j < x + |src| then src[j - x] else 0
    ensures RowCount(row[..l]) == RowCount(src[..Clip(l, x, |src|)])
  {
    if l > 0 {
      RowCountShift(row, src, x, l - 1);
      assert row[..l][..l - 1] == row[..l - 1];
      var c := Clip(l - 1, x, |src|);
      if x <= l - 1 < x + |src| {
        assert Clip(l, x, |src|) == c + 1;
        assert src[..c + 1][..c] == src[..c];
      }
    }
  }

  lemma {:induction false} CountShift(g: Grid, m: Grid, w: nat, cw: nat, y: nat, x: nat, k: nat)
    requires IsGrid(g, |g|, w) && IsGrid(m, |m|, cw)
    requires y + |m| <= |g| && x + cw <= w && k <= |g|
    requires forall i, j | 0 <= i < |g| && 0 <= j < w ::
      g[i][j] == if y <= i < y + |m| && x <= j < x + cw then m[i - y][j - x] else 0
    ensures Count(g[..k]) == Count(m[..Clip(k, y, |m|)])
  {
    if k > 0 {
      CountShift(g, m, w, cw, y, x, k - 1);
      var i := k - 1;
      assert g[..k][..i] == g[..i];
      assert Count(g[..k]) == Count(g[..i]) + RowCount(g[i]);
      if y <= i < y + |m| {
        WindowRowCount(g[i], m[i - y], x, w, cw);
        var c := Clip(i, y, |m|);
        assert Clip(k, y, |m|) == c + 1;
        assert m[..c + 1][..c] == m[..c];
      } else {
        assert Clip(k, y, |m|) == Clip(i, y, |m|);
        RowCountZero(g[i]);
      }
    }
  }

  /** A canvas row that holds `src` inside the window and 0 elsewhere counts as `src`. */
  lemma WindowRowCount(row: seq<int>, src: seq<int>, x: nat, w: nat, cw: nat)
    requires |row| == w && |src| == cw && x + cw <= w
    requires forall j | 0 <= j < w :: row[j] == if x <= j < x + cw then src[j - x] else 0
    ensures RowCount(row) == RowCount(src)
  {
    RowCountShift(row, src, x, w);
    assert row[..w] == row;
    assert src[..cw] == src;
  }

  lemma CountPlaced(g: Grid, m: Grid, h: nat, w: nat, y: nat, x: nat)
    requires IsGrid(g, h, w) && IsGrid(m, |m|, Width(m)) && y + |m| <= h && x + Width(m) <= w
    requires forall i, j | 0 <= i < h && 0 <= j < w ::
      g[i][j] == if y <= i < y + |m| && x <= j < x + Width(m) then m[i - y][j - x] else 0
    ensures Count(g) == Count(m)
  {
    CountShift(g, m, w, Width(m), y, x, h);
    assert g[..h] == g;
    assert m[..|m|] == m;
  }

  /** A mask pasted where it lies wholly inside the canvas keeps its pixel count. */
  lemma PasteKeepsCount(h: nat, w: nat, m: Grid, y: nat, x: nat)
    requires IsGrid(m, |m|, Width(m)) && y + |m| <= h && x + Width(m) <= w
    ensures Paste(h, w, m, y, x).Some?
    ensures Count(Paste(h, w, m, y, x).value) == Count(m)
  {
    assert SliceLen(y, |m|, h) == |m| && SliceLen(x, Width(m), w) == Width(m);
    CountPlaced(Paste(h, w, m, y, x).value, m, h, w, y, x);
  }

  /** A mask pasted at a column at or past the canvas edge lands nowhere: when its width
      is 1, numpy broadcasts it into the empty slice without complaint and the canvas
      stays all zero. */
  lemma PastBeyondEdgeIsEmpty(h: nat, w: nat, m: Grid, y: nat, x: nat)
    requires IsGrid(m, |m|, 1) && 0 < |m| && x >= w
    requires Broadcasts(|m|, SliceLen(y, |m|, h))
    ensures Paste(h, w, m, y, x).Some?
    ensures Count(Paste(h, w, m, y, x).value) == 0
  {
    CountZero(Paste(h, w, m, y, x).value);
  }

  /** A one-row mask pasted at a row at or past the canvas edge lands nowhere in the
      same way. */
  lemma PastBelowEdgeIsEmpty(h: nat, w: nat, m: Grid, y: nat, x: nat)
    requires |m| == 1 && IsGrid(m, 1, Width(m)) && y >= h
    requires Broadcasts(Width(m), SliceLen(x, Width(m), w))
    ensures Paste(h, w, m, y, x).Some?
    ensures Count(Paste(h, w, m, y, x).value) == 0
  {
    CountZero(Paste(h, w, m, y, x).value);
  }

  /** A full-size mask pasted at a non-zero column offset does not fit: numpy raises. */
  lemma {:induction false} FullSizeAtOffsetFails(h: nat, w: nat, m: Grid, y: nat, x: nat)
    requires IsGrid(m, h, w) && h > 0 && w > 0
    requires (x > 0 && w > 1) || (y > 0 && h > 1)
    ensures Paste(h, w, m, y, x).None?
  {
    if x > 0 && w > 1 {
      assert SliceLen(x, w, w) < w;
    } else {
      assert SliceLen(y, h, h) < h;
    }
  }
}
