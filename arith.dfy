/** Minimum and maximum of integers and of non-empty sequences, and the facts of
    non-linear integer arithmetic used by the stretch and the percentile. */
module Arith {

  function Min(a: int, b: int): int { if a < b then a else b }

  function Max(a: int, b: int): int { if a < b then b else a }

  /** Smallest element of a non-empty sequence (`min`, `ndarray.min`). */
  function SeqMin(s: seq<int>): (m: int)
    requires |s| > 0
    ensures m in s && forall x | x in s :: m <= x
  {
    if |s| == 1 then s[0]
    else
      var rest := SeqMin(s[1..]);
      assert forall x | x in s :: x == s[0] || x in s[1..];
      Min(s[0], rest)
  }

  /** Largest element of a non-empty sequence (`max`, `ndarray.max`). */
  function SeqMax(s: seq<int>): (m: int)
    requires |s| > 0
    ensures m in s && forall x | x in s :: x <= m
  {
    if |s| == 1 then s[0]
    else
      var rest := SeqMax(s[1..]);
      assert forall x | x in s :: x == s[0] || x in s[1..];
      Max(s[0], rest)
  }

  lemma MulMonotone(d: nat, x: int, y: int)
    requires x <= y
    ensures d * x <= d * y
  {
    assert d * y - d * x == d * (y - x);
  }

  lemma DivMonotone(a: int, b: int, d: int)
    requires 0 <= a <= b && d > 0
    ensures a / d <= b / d
  {
    var qa, qb := a / d, b / d;
    assert d * qa + a % d == a;
    assert d * qb + b % d == b;
    if qa > qb {
      MulMonotone(d, qb + 1, qa);
      assert false;
    }
  }

  lemma DivOfMultiple(d: int, k: int)
    requires d > 0
    ensures (d * k) / d == k
  {
    var q, r := (d * k) / d, (d * k) % d;
    assert d * q + r == d * k && 0 <= r < d;
    assert d * (k - q) == r;
    if k - q >= 1 {
      MulMonotone(d, 1, k - q);
    } else if k - q <= -1 {
      MulMonotone(d, k - q, -1);
    }
  }
}
