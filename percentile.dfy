/** `np.percentile` with its default linear interpolation, over exact reals: sort the
    sample, take the fractional index `q (n - 1) / 100`, and interpolate between the
    two neighbouring order statistics. */
module Percentiles {
  import opened Arith

  predicate Sorted(s: seq<int>) {
    forall i, j | 0 <= i < j < |s| :: s[i] <= s[j]
  }

  /** `x` inserted into a sorted sequence before its first larger element. */
  function Insert(x: int, s: seq<int>): (r: seq<int>)
    requires Sorted(s)
    ensures Sorted(r) && multiset(r) == multiset(s) + multiset{x} && |r| == |s| + 1
  {
    if s == [] || x <= s[0] then
      PrependSorted(x, s);
      [x] + s
    else
      var rest := Insert(x, s[1..]);
      assert s == [s[0]] + s[1..];
      forall j | 0 <= j < |rest| ensures s[0] <= rest[j] {
        assert rest[j] in multiset(rest);
        if rest[j] != x {
          assert rest[j] in multiset(s[1..]);
          SortedBounds(s, rest[j]);
        }
      }
      PrependSorted(s[0], rest);
      [s[0]] + rest
  }

  /** A sorted sequence stays sorted with an element no larger than its first in front. */
  lemma PrependSorted(y: int, s: seq<int>)
    requires Sorted(s) && (s == [] || y <= s[0])
    ensures Sorted([y] + s)
  {
  }

  /** The sample in ascending order: a sorted permutation of it. */
  function Sort(s: seq<int>): (r: seq<int>)
    ensures Sorted(r) && multiset(r) == multiset(s) && |r| == |s|
  {
    if s == [] then []
    else
      assert s == [s[0]] + s[1..];
      Insert(s[0], Sort(s[1..]))
  }

  /** The first and last elements of a sorted permutation are the sample's minimum and
      maximum. */
  lemma SortEnds(s: seq<int>)
    requires |s| > 0
    ensures |Sort(s)| == |s|
    ensures Sort(s)[0] == SeqMin(s) && Sort(s)[|s| - 1] == SeqMax(s)
  {
    var a := Sort(s);
    var n := |s|;
    var lo, hi := SeqMin(s), SeqMax(s);
    SameElements(a, s, a[0]);
    SameElements(a, s, a[n - 1]);
    SameElements(s, a, lo);
    SameElements(s, a, hi);
    SortedBounds(a, lo);
    SortedBounds(a, hi);
  }

  lemma SameElements(a: seq<int>, b: seq<int>, x: int)
    requires multiset(a) == multiset(b) && x in a
    ensures x in b
  {
    assert x in multiset(a);
  }

  /** Every element of a sorted sequence lies between its first and last. */
  lemma SortedBounds(a: seq<int>, x: int)
    requires Sorted(a) && x in a
    ensures a[0] <= x <= a[|a| - 1]
  {
    var k :| 0 <= k < |a| && a[k] == x;
  }

  /** Linear interpolation in a sorted sample `a` at the fractional index
      `scaled / 100`: with `lo` its floor and `gamma` its fractional part, the value
      `a[lo] + (a[lo + 1] - a[lo]) * gamma`, or `a[lo]` itself at the last index. The
      result lies between the two neighbouring order statistics and is `a[lo]` exactly
      at a whole index. */
  function Interpolate(a: seq<int>, scaled: nat): (r: real)
    requires |a| > 0 && scaled <= (|a| - 1) * 100 && Sorted(a)
    ensures a[scaled / 100] as real <= r <= a[Min(scaled / 100 + 1, |a| - 1)] as real
    ensures scaled % 100 == 0 ==> r == a[scaled / 100] as real
  {
    var lo := scaled / 100;
    var hi := if lo + 1 < |a| then lo + 1 else lo;
    InterpolationBounds(a[lo], a[hi], scaled % 100);
    (a[lo] * 100 + (a[hi] - a[lo]) * (scaled % 100)) as real / 100.0
  }

  lemma InterpolationBounds(x: int, y: int, m: int)
    requires x <= y && 0 <= m <= 100
    ensures x as real <= (x * 100 + (y - x) * m) as real / 100.0 <= y as real
  {
    MulMonotone(y - x, 0, m);
    MulMonotone(y - x, m, 100);
  }

  /** The `q`-th percentile (`0 <= q <= 100`) of a non-empty sample, numpy's linear
      method: interpolation in the sorted sample at the index `q (n - 1) / 100`. It
      lies between the smallest and the largest element; the 0th is the smallest and
      the 100th the largest. */
  function Percentile(s: seq<int>, q: int): (r: real)
    requires |s| > 0 && 0 <= q <= 100
    ensures SeqMin(s) as real <= r <= SeqMax(s) as real
    ensures q == 0 ==> r == SeqMin(s) as real
    ensures q == 100 ==> r == SeqMax(s) as real
  {
    var a := Sort(s);
    var n := |s|;
    SortEnds(s);
    MulMonotone(n - 1, q, 100);
    MulMonotone(n - 1, 0, q);
    var scaled := (n - 1) * q;
    assert a[0] <= a[scaled / 100] && a[Min(scaled / 100 + 1, n - 1)] <= a[n - 1];
    DivOfMultiple(100, n - 1);
    assert q == 100 ==> scaled / 100 == n - 1;
    Interpolate(a, scaled)
  }

  /** Interpolation moves forward with the fractional index: a later index never gives
      a smaller value. */
  lemma InterpolateMonotone(a: seq<int>, s1: nat, s2: nat)
    requires |a| > 0 && s1 <= s2 <= (|a| - 1) * 100 && Sorted(a)
    ensures Interpolate(a, s1) <= Interpolate(a, s2)
  {
    DivMonotone(s1, s2, 100);
    var lo1, lo2 := s1 / 100, s2 / 100;
    if lo1 < lo2 {
      assert a[Min(lo1 + 1, |a| - 1)] <= a[lo2];
    } else {
      var hi := if lo1 + 1 < |a| then lo1 + 1 else lo1;
      assert s1 % 100 <= s2 % 100;
      MulMonotone(a[hi] - a[lo1], s1 % 100, s2 % 100);
    }
  }

  /** A higher percentile is never smaller: lowering `core_percentile` lowers the
      core threshold. */
  lemma PercentileMonotone(s: seq<int>, q1: int, q2: int)
    requires |s| > 0 && 0 <= q1 <= q2 <= 100
    ensures Percentile(s, q1) <= Percentile(s, q2)
  {
    var n := |s|;
    MulMonotone(n - 1, q1, q2);
    MulMonotone(n - 1, q2, 100);
    MulMonotone(n - 1, 0, q1);
    InterpolateMonotone(Sort(s), (n - 1) * q1, (n - 1) * q2);
  }
}
