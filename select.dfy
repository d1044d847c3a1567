/** Selection of one element by size: the spheroid contour among the contours found,
    and the core component among the labelled components. Both keep the FIRST element
    of largest size, as Python's `max(..., key=...)` and numpy's `argmax` do. */
module Select {
  import opened Wrappers

  /** src/spheroid_processor.py lines 180-186: among the contours whose area is at least `minArea`, the index of
      the first one of largest area, or `None` when no area reaches `minArea`. */
  function FirstLargest(areas: seq<real>, minArea: int): (r: Option<nat>)
    ensures r.None? <==> forall j | 0 <= j < |areas| :: areas[j] < minArea as real
    ensures r.Some? ==> r.value < |areas| && areas[r.value] >= minArea as real
    ensures r.Some? ==> forall j | 0 <= j < |areas| && areas[j] >= minArea as real :: areas[j] <= areas[r.value]
    ensures r.Some? ==> forall j | 0 <= j < r.value && areas[j] >= minArea as real :: areas[j] < areas[r.value]
  {
    if areas == [] then None
    else
      var n := |areas| - 1;
      var last := areas[n];
      match FirstLargest(areas[..n], minArea)
      case None => if last >= minArea as real then Some(n) else None
      case Some(k) => if last >= minArea as real && last > areas[k] then Some(n) else Some(k)
  }

  /** `np.argmax`: the index of the first largest element of a non-empty sequence. */
  function FirstArgmax(s: seq<int>): (k: nat)
    requires |s| > 0
    ensures k < |s|
    ensures forall j | 0 <= j < |s| :: s[j] <= s[k]
    ensures forall j | 0 <= j < k :: s[j] < s[k]
  {
    if |s| == 1 then 0
    else
      var n := |s| - 1;
      var k := FirstArgmax(s[..n]);
      if s[n] > s[k] then n else k
  }
}
