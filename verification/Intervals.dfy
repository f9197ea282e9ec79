/** The interval domain of the overflow checker. */
module Intervals {

  datatype Interval = Interval(min: int, max: int)

  predicate Contains(i: Interval, x: int) {
    i.min <= x <= i.max
  }

  function Point(x: int): Interval {
    Interval(x, x)
  }

  function Add(a: Interval, b: Interval): Interval {
    Interval(a.min + b.min, a.max + b.max)
  }

  function Sub(a: Interval, b: Interval): Interval {
    Interval(a.min - b.max, a.max - b.min)
  }

  function Corners(a: Interval, b: Interval): seq<int> {
    [a.min * b.min, a.min * b.max, a.max * b.min, a.max * b.max]
  }

  function Least(xs: seq<int>): (m: int)
    requires xs != []
    ensures m in xs && forall i | 0 <= i < |xs| :: m <= xs[i]
  {
    if |xs| == 1 then xs[0]
    else
      var n := |xs| - 1;
      var m := Least(xs[..n]);
      assert forall i | 0 <= i < n :: xs[..n][i] == xs[i];
      if xs[n] < m then xs[n] else m
  }

  function Greatest(xs: seq<int>): (m: int)
    requires xs != []
    ensures m in xs && forall i | 0 <= i < |xs| :: xs[i] <= m
  {
    if |xs| == 1 then xs[0]
    else
      var n := |xs| - 1;
      var m := Greatest(xs[..n]);
      assert forall i | 0 <= i < n :: xs[..n][i] == xs[i];
      if xs[n] > m then xs[n] else m
  }

  function Mul(a: Interval, b: Interval): Interval {
    Interval(Least(Corners(a, b)), Greatest(Corners(a, b)))
  }

  method MulByScan(a: Interval, b: Interval) returns (r: Interval)
    ensures r == Mul(a, b)
  {
    var vals := Corners(a, b);
    var min, max := vals[0], vals[0];
    for i := 0 to |vals|
      invariant min in vals && max in vals
      invariant forall j | 0 <= j < i :: min <= vals[j] <= max
    {
      if vals[i] < min {
        min := vals[i];
      }
      if vals[i] > max {
        max := vals[i];
      }
    }
    r := Interval(min, max);
  }

  lemma ScalingKeepsOrder(p: int, q: int, y: int)
    requires p <= q
    ensures y >= 0 ==> p * y <= q * y
    ensures y <= 0 ==> q * y <= p * y
  {
  }

  /** A product lies between the products of the two ends of one factor. */
  lemma BetweenEnds(i: Interval, x: int, y: int, low: int, high: int)
    requires Contains(i, x)
    requires low <= i.min * y <= high && low <= i.max * y <= high
    ensures low <= x * y <= high
  {
    ScalingKeepsOrder(i.min, x, y);
    ScalingKeepsOrder(x, i.max, y);
  }

  /** Sums of members fill exactly the sum of two intervals, and differences their difference. */
  lemma AddIsSoundAndTight(a: Interval, b: Interval)
    requires a.min <= a.max && b.min <= b.max
    ensures forall z :: Contains(Add(a, b), z) <==> exists x, y :: Contains(a, x) && Contains(b, y) && x + y == z
    ensures forall z :: Contains(Sub(a, b), z) <==> exists x, y :: Contains(a, x) && Contains(b, y) && x - y == z
  {
    forall z | Contains(Add(a, b), z)
      ensures exists x, y :: Contains(a, x) && Contains(b, y) && x + y == z
    {
      var x := if z - b.min <= a.max then z - b.min else a.max;
      assert Contains(a, x) && Contains(b, z - x) && x + (z - x) == z;
    }
    forall z | Contains(Sub(a, b), z)
      ensures exists x, y :: Contains(a, x) && Contains(b, y) && x - y == z
    {
      var x := if z + b.max <= a.max then z + b.max else a.max;
      assert Contains(a, x) && Contains(b, x - z) && x - (x - z) == z;
    }
  }

  /** The same with the fixed factor first. */
  lemma EndTimes(i: Interval, y: int, c: int, low: int, high: int)
    requires Contains(i, y)
    requires low <= c * i.min <= high && low <= c * i.max <= high
    ensures low <= c * y <= high
  {
    BetweenEnds(i, y, c, low, high);
  }

  lemma BetweenCorners(a: Interval, b: Interval, x: int, y: int, low: int, high: int)
    requires Contains(a, x) && Contains(b, y)
    requires low <= a.min * b.min <= high && low <= a.min * b.max <= high
    requires low <= a.max * b.min <= high && low <= a.max * b.max <= high
    ensures low <= x * y <= high
  {
    EndTimes(b, y, a.min, low, high);
    EndTimes(b, y, a.max, low, high);
    BetweenEnds(a, x, y, low, high);
  }

  /** Four corners are enough, whatever the signs. */
  lemma MulIsSound(a: Interval, b: Interval, x: int, y: int)
    requires Contains(a, x) && Contains(b, y)
    ensures Contains(Mul(a, b), x * y)
  {
    var vals, r := Corners(a, b), Mul(a, b);
    assert r.min <= vals[0] <= r.max && r.min <= vals[1] <= r.max && r.min <= vals[2] <= r.max && r.min <= vals[3] <= r.max;
    BetweenCorners(a, b, x, y, r.min, r.max);
  }

  /** No narrower interval would do: both ends are products of members. */
  lemma MulIsTight(a: Interval, b: Interval)
    requires a.min <= a.max && b.min <= b.max
    ensures exists x, y :: Contains(a, x) && Contains(b, y) && x * y == Mul(a, b).min
    ensures exists x, y :: Contains(a, x) && Contains(b, y) && x * y == Mul(a, b).max
  {
    CornerIsProduct(a, b, Mul(a, b).min);
    CornerIsProduct(a, b, Mul(a, b).max);
  }

  lemma CornerIsProduct(a: Interval, b: Interval, v: int)
    requires a.min <= a.max && b.min <= b.max && v in Corners(a, b)
    ensures exists x, y :: Contains(a, x) && Contains(b, y) && x * y == v
  {
    var i :| 0 <= i < 4 && Corners(a, b)[i] == v;
    var x, y := if i < 2 then a.min else a.max, if i % 2 == 0 then b.min else b.max;
    assert Contains(a, x) && Contains(b, y) && x * y == v;
  }
}
