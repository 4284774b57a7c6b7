/** Distance metrics of data/tree.go.

    A metric is a pure function of two coordinate vectors. The k-d tree takes
    one as a parameter (`DistanceMetric`). Each concrete metric of the source
    is split in two here: a total core (`SqDist`, `AbsDist`, `MaxDist`) that
    the tree can be handed as a function value, and the source's entry point
    (`EuclideanSq`, `Manhattan`, `Chebyshev`) that first performs the length
    check and fails with `LengthMismatch` where the source panics.

    Each source loop accumulates from index 0 upwards; `SqSum(a, b, n)`,
    `AbsSum(a, b, n)` and `MaxAbs(a, b, n)` are its accumulator after `n`
    iterations, and a metric's value is the accumulator after all of them. */
module Metrics {
  import opened Wrappers
  import opened Arith

  /** `DistanceMetric` of data/tree.go: both arguments should have equal length. */
  type DistanceMetric = (seq<real>, seq<real>) -> real

  function Abs(x: real): real {
    if x < 0.0 then -x else x
  }

  /** The metric applied to the one-component vectors `[x]` and `[y]`: what
      the tree's pruning test measures between a query and a splitting plane. */
  function AxisDist(dist: DistanceMetric, x: real, y: real): real {
    dist([x], [y])
  }

  // ---------------------------------------------------------------------
  // Pruning hypothesis
  // ---------------------------------------------------------------------

  /** Restricting two equal-length vectors to any single shared axis never
      increases their distance. */
  ghost predicate AxisLowerBound(dist: DistanceMetric) {
    forall a: seq<real>, b: seq<real>, i: int ::
      |a| == |b| && 0 <= i < |a| ==> AxisDist(dist, a[i], b[i]) <= dist(a, b)
  }

  /** On one axis the distance grows with the gap between the coordinates
      (and so does not depend on the argument order). */
  ghost predicate AxisMonotone(dist: DistanceMetric) {
    forall x1: real, y1: real, x2: real, y2: real ::
      Abs(x1 - y1) <= Abs(x2 - y2) ==> AxisDist(dist, x1, y1) <= AxisDist(dist, x2, y2)
  }

  /** What the nearest-neighbour pruning of data/kdtree.go needs of a metric. */
  ghost predicate PruningSound(dist: DistanceMetric) {
    AxisLowerBound(dist) && AxisMonotone(dist)
  }

  /** The pruning step: when the splitting coordinate `pivot` lies between the
      query's and an item's coordinate on axis `ax`, the single-axis distance
      from the query to the plane is at most the item's full distance. */
  lemma FarSideBound(dist: DistanceMetric, p: seq<real>, q: seq<real>, ax: int, pivot: real)
    requires PruningSound(dist)
    requires |p| == |q| && 0 <= ax < |p|
    requires q[ax] <= pivot <= p[ax] || p[ax] <= pivot <= q[ax]
    ensures AxisDist(dist, q[ax], pivot) <= dist(p, q)
  {
    assert Abs(q[ax] - pivot) <= Abs(p[ax] - q[ax]);
    assert AxisDist(dist, q[ax], pivot) <= AxisDist(dist, p[ax], q[ax]);
    assert AxisDist(dist, p[ax], q[ax]) <= dist(p, q);
  }

  function Min(x: int, y: int): int {
    if x < y then x else y
  }

  function Sq(x: real): (r: real)
    ensures r >= 0.0
  {
    x * x
  }

  lemma MulMonotone(p: real, q: real)
    requires 0.0 <= p <= q
    ensures p * p <= q * q
  {
    assert p * p <= p * q;
    assert p * q <= q * q;
  }

  lemma SqAbs(u: real)
    ensures Sq(u) == Abs(u) * Abs(u)
  {
    if u < 0.0 {
      assert (-u) * (-u) == u * u;
    }
  }

  lemma SquareMonotone(u: real, v: real)
    requires Abs(u) <= Abs(v)
    ensures Sq(u) <= Sq(v)
  {
    SqAbs(u);
    SqAbs(v);
    MulMonotone(Abs(u), Abs(v));
  }

  // ---------------------------------------------------------------------
  // Squared Euclidean distance
  // ---------------------------------------------------------------------

  /** The running sum of `EuclideanSq`'s loop after `n` iterations. */
  function SqSum(a: seq<real>, b: seq<real>, n: nat): (r: real)
    requires n <= |a| && n <= |b|
    ensures r >= 0.0
  {
    if n == 0 then 0.0 else SqSum(a, b, n - 1) + Sq(b[n - 1] - a[n - 1])
  }

  /** Sum of `(b[i]-a[i])^2` over the common indices. */
  function SqDist(a: seq<real>, b: seq<real>): real {
    SqSum(a, b, Min(|a|, |b|))
  }

  /** `EuclideanSq`: the length check, then the sum of squared differences. */
  function EuclideanSq(a: seq<real>, b: seq<real>): (r: Result<real, Error>)
    ensures r.Fail? <==> |a| != |b|
    ensures r.Fail? ==> r.error == LengthMismatch
    ensures r.Ok? ==> r.value >= 0.0
    ensures r.Ok? && a == b ==> r.value == 0.0
  {
    if |a| != |b| then Fail(LengthMismatch)
    else
      SqDistSelf(a);
      Ok(SqDist(a, b))
  }

  /** `Euclidean` takes the square root of `EuclideanSq`; only its failure
      behaviour is kept, which it inherits from `EuclideanSq`. */
  function EuclideanLengthCheck(a: seq<real>, b: seq<real>): (r: Result<(), Error>)
    ensures r.Fail? <==> |a| != |b|
    ensures r.Fail? ==> r.error == LengthMismatch
  {
    match EuclideanSq(a, b)
    case Fail(e) => Fail(e)
    case Ok(_) => Ok(())
  }

  lemma {:induction false} SqSumSymmetric(a: seq<real>, b: seq<real>, n: nat)
    requires n <= |a| && n <= |b|
    ensures SqSum(a, b, n) == SqSum(b, a, n)
  {
    if n > 0 {
      SqSumSymmetric(a, b, n - 1);
      assert Sq(b[n - 1] - a[n - 1]) == Sq(a[n - 1] - b[n - 1]);
    }
  }

  /** Swapping the arguments of `EuclideanSq` does not change its result. */
  lemma EuclideanSqSymmetric(a: seq<real>, b: seq<real>)
    ensures EuclideanSq(a, b) == EuclideanSq(b, a)
  {
    SqSumSymmetric(a, b, Min(|a|, |b|));
  }

  lemma {:induction false} SqSumSelf(a: seq<real>, n: nat)
    requires n <= |a|
    ensures SqSum(a, a, n) == 0.0
  {
    if n > 0 {
      SqSumSelf(a, n - 1);
    }
  }

  lemma SqDistSelf(a: seq<real>)
    ensures SqDist(a, a) == 0.0
  {
    SqSumSelf(a, |a|);
  }

  lemma SqDistAxis(x: real, y: real)
    ensures AxisDist(SqDist, x, y) == Sq(y - x)
  {
    assert SqDist([x], [y]) == SqSum([x], [y], 1);
  }

  lemma {:induction false} SqSumBound(a: seq<real>, b: seq<real>, n: nat, i: int)
    requires n <= |a| && n <= |b| && 0 <= i < n
    ensures Sq(b[i] - a[i]) <= SqSum(a, b, n)
  {
    if i < n - 1 {
      SqSumBound(a, b, n - 1, i);
    }
  }

  /** `EuclideanSq` satisfies the pruning hypothesis of the k-d tree. */
  lemma SqDistPruningSound()
    ensures PruningSound(SqDist)
  {
    forall a: seq<real>, b: seq<real>, i: int | |a| == |b| && 0 <= i < |a|
      ensures AxisDist(SqDist, a[i], b[i]) <= SqDist(a, b)
    {
      SqDistAxis(a[i], b[i]);
      SqSumBound(a, b, |a|, i);
    }
    forall x1: real, y1: real, x2: real, y2: real | Abs(x1 - y1) <= Abs(x2 - y2)
      ensures AxisDist(SqDist, x1, y1) <= AxisDist(SqDist, x2, y2)
    {
      SqDistAxis(x1, y1);
      SqDistAxis(x2, y2);
      SquareMonotone(y1 - x1, y2 - x2);
    }
  }

  // ---------------------------------------------------------------------
  // Manhattan distance
  // ---------------------------------------------------------------------

  /** The running sum of `Manhattan`'s loop after `n` iterations. */
  function AbsSum(a: seq<real>, b: seq<real>, n: nat): (r: real)
    requires n <= |a| && n <= |b|
    ensures r >= 0.0
  {
    if n == 0 then 0.0 else AbsSum(a, b, n - 1) + Abs(b[n - 1] - a[n - 1])
  }

  /** Sum of `|b[i]-a[i]|` over the common indices. */
  function AbsDist(a: seq<real>, b: seq<real>): real {
    AbsSum(a, b, Min(|a|, |b|))
  }

  /** `Manhattan`: the length check, then the sum of absolute differences. */
  function Manhattan(a: seq<real>, b: seq<real>): (r: Result<real, Error>)
    ensures r.Fail? <==> |a| != |b|
    ensures r.Fail? ==> r.error == LengthMismatch
    ensures r.Ok? ==> r.value >= 0.0
    ensures r.Ok? && a == b ==> r.value == 0.0
  {
    if |a| != |b| then Fail(LengthMismatch)
    else
      AbsDistSelf(a);
      Ok(AbsDist(a, b))
  }

  lemma {:induction false} AbsSumSymmetric(a: seq<real>, b: seq<real>, n: nat)
    requires n <= |a| && n <= |b|
    ensures AbsSum(a, b, n) == AbsSum(b, a, n)
  {
    if n > 0 {
      AbsSumSymmetric(a, b, n - 1);
    }
  }

  /** Swapping the arguments of `Manhattan` does not change its result. */
  lemma ManhattanSymmetric(a: seq<real>, b: seq<real>)
    ensures Manhattan(a, b) == Manhattan(b, a)
  {
    AbsSumSymmetric(a, b, Min(|a|, |b|));
  }

  lemma {:induction false} AbsSumSelf(a: seq<real>, n: nat)
    requires n <= |a|
    ensures AbsSum(a, a, n) == 0.0
  {
    if n > 0 {
      AbsSumSelf(a, n - 1);
    }
  }

  lemma AbsDistSelf(a: seq<real>)
    ensures AbsDist(a, a) == 0.0
  {
    AbsSumSelf(a, |a|);
  }

  lemma AbsDistAxis(x: real, y: real)
    ensures AxisDist(AbsDist, x, y) == Abs(y - x)
  {
    assert AbsDist([x], [y]) == AbsSum([x], [y], 1);
  }

  lemma {:induction false} AbsSumBound(a: seq<real>, b: seq<real>, n: nat, i: int)
    requires n <= |a| && n <= |b| && 0 <= i < n
    ensures Abs(b[i] - a[i]) <= AbsSum(a, b, n)
  {
    if i < n - 1 {
      AbsSumBound(a, b, n - 1, i);
    }
  }

  /** `Manhattan` satisfies the pruning hypothesis of the k-d tree. */
  lemma AbsDistPruningSound()
    ensures PruningSound(AbsDist)
  {
    forall a: seq<real>, b: seq<real>, i: int | |a| == |b| && 0 <= i < |a|
      ensures AxisDist(AbsDist, a[i], b[i]) <= AbsDist(a, b)
    {
      AbsDistAxis(a[i], b[i]);
      AbsSumBound(a, b, |a|, i);
    }
    forall x1: real, y1: real, x2: real, y2: real | Abs(x1 - y1) <= Abs(x2 - y2)
      ensures AxisDist(AbsDist, x1, y1) <= AxisDist(AbsDist, x2, y2)
    {
      AbsDistAxis(x1, y1);
      AbsDistAxis(x2, y2);
    }
  }

  // ---------------------------------------------------------------------
  // Chebyshev distance
  // ---------------------------------------------------------------------

  /** The running maximum of `Chebyshev`'s loop after `n` iterations; it
      starts at 0. */
  function MaxAbs(a: seq<real>, b: seq<real>, n: nat): (r: real)
    requires n <= |a| && n <= |b|
    ensures r >= 0.0
  {
    if n == 0 then 0.0 else MathMax(MaxAbs(a, b, n - 1), Abs(b[n - 1] - a[n - 1]))
  }

  /** Largest `|b[i]-a[i]|` over the common indices, or 0 if there are none. */
  function MaxDist(a: seq<real>, b: seq<real>): real {
    MaxAbs(a, b, Min(|a|, |b|))
  }

  /** `Chebyshev`: the length check, then the largest absolute difference. */
  function Chebyshev(a: seq<real>, b: seq<real>): (r: Result<real, Error>)
    ensures r.Fail? <==> |a| != |b|
    ensures r.Fail? ==> r.error == LengthMismatch
    ensures r.Ok? ==> r.value >= 0.0
    ensures r.Ok? && a == b ==> r.value == 0.0
    ensures |a| == 0 && |b| == 0 ==> r == Ok(0.0)
  {
    if |a| != |b| then Fail(LengthMismatch)
    else
      MaxDistSelf(a);
      Ok(MaxDist(a, b))
  }

  lemma {:induction false} MaxAbsSymmetric(a: seq<real>, b: seq<real>, n: nat)
    requires n <= |a| && n <= |b|
    ensures MaxAbs(a, b, n) == MaxAbs(b, a, n)
  {
    if n > 0 {
      MaxAbsSymmetric(a, b, n - 1);
    }
  }

  /** Swapping the arguments of `Chebyshev` does not change its result. */
  lemma ChebyshevSymmetric(a: seq<real>, b: seq<real>)
    ensures Chebyshev(a, b) == Chebyshev(b, a)
  {
    MaxAbsSymmetric(a, b, Min(|a|, |b|));
  }

  lemma {:induction false} MaxAbsSelf(a: seq<real>, n: nat)
    requires n <= |a|
    ensures MaxAbs(a, a, n) == 0.0
  {
    if n > 0 {
      MaxAbsSelf(a, n - 1);
    }
  }

  lemma MaxDistSelf(a: seq<real>)
    ensures MaxDist(a, a) == 0.0
  {
    MaxAbsSelf(a, |a|);
  }

  lemma MaxDistAxis(x: real, y: real)
    ensures AxisDist(MaxDist, x, y) == Abs(y - x)
  {
    assert MaxDist([x], [y]) == MaxAbs([x], [y], 1);
  }

  lemma {:induction false} MaxAbsBound(a: seq<real>, b: seq<real>, n: nat, i: int)
    requires n <= |a| && n <= |b| && 0 <= i < n
    ensures Abs(b[i] - a[i]) <= MaxAbs(a, b, n)
  {
    if i < n - 1 {
      MaxAbsBound(a, b, n - 1, i);
    }
  }

  /** `Chebyshev` satisfies the pruning hypothesis of the k-d tree. */
  lemma MaxDistPruningSound()
    ensures PruningSound(MaxDist)
  {
    forall a: seq<real>, b: seq<real>, i: int | |a| == |b| && 0 <= i < |a|
      ensures AxisDist(MaxDist, a[i], b[i]) <= MaxDist(a, b)
    {
      MaxDistAxis(a[i], b[i]);
      MaxAbsBound(a, b, |a|, i);
    }
    forall x1: real, y1: real, x2: real, y2: real | Abs(x1 - y1) <= Abs(x2 - y2)
      ensures AxisDist(MaxDist, x1, y1) <= AxisDist(MaxDist, x2, y2)
    {
      MaxDistAxis(x1, y1);
      MaxDistAxis(x2, y2);
    }
  }

  // ---------------------------------------------------------------------
  // Canberra distance
  // ---------------------------------------------------------------------

  /** `Canberra` keeps only its length check: its formula divides by
      `|b[i]|+|a[i]|`, which is zero (giving NaN) for two zero components. */
  function CanberraLengthCheck(a: seq<real>, b: seq<real>): (r: Result<(), Error>)
    ensures r.Fail? <==> |a| != |b|
    ensures r.Fail? ==> r.error == LengthMismatch
  {
    if |a| != |b| then Fail(LengthMismatch) else Ok(())
  }
}
