# goutil core, modelled in Dafny

This project models the algorithmic core of the Go utility library
`quillaja/goutil` and proves properties of the model.

- **k-d tree** (`data/kdtree.go`, modules `KdTree`, `Nearest`, `KNearest`):
  - `Build` checks the items' dimensionality, then builds the tree by
    recursive median splits on the cycling axes.
  - `QueryPoint` looks an item up by identity.
  - `QueryRange` collects the items inside an axis-aligned box.
  - `NearestNeighbor` runs a branch-and-bound search for the closest item.
  - `NearestNeighbors` keeps a best-to-worst buffer of `k` slots, updated
    with `insertAndTrim`.
- **distance metrics** (`data/tree.go`, module `Metrics`): `EuclideanSq`,
  `Manhattan` and `Chebyshev`, plus the length checks of `Euclidean` and
  `Canberra`.
- **float-slice combinators** (`functional/floats.go`, module `Functional`):
  - `MapF`, `ReduceF` and `FilterF`;
  - the builders `Add`, `Mul`, `Truth`, `LessThan`, `GreaterThan` and `Equal`;
  - the reducers `Sum`, `Prod`, `Max` and `Min`;
  - `Any` and `All`.
- **the ring buffer** `Averager` (`misc/averager.go`, module `Averaging`).
- **`ClampInt` and `factorial`** (`num/`, module `Num`).
  - `factorial` is modelled both as the mathematical function and as the
    64-bit loop that wraps around.
- **the cell-noise `hash`** and the seed its callers derive from it
  (`rand/cell_noise.go`, module `CellNoise`).
  - Go's truncating `%` is written out as `GoRem`.
- **`PixIndex`** (`pxu/general.go`, module `Pixels`).

`Arith` holds small lemmas about integer division and products that the
other modules use. `Wrappers` holds `Option`, `Result` and the error values.

## How the source's behaviour maps to the model

- **Panics:**
  - An explicit `panic(...)` becomes a `Fail` result. This covers a wrong
    item dimensionality in `Build`, a wrong `ranges` length in `QueryRange`,
    and unequal lengths in the metrics.
  - An index-out-of-range panic becomes a precondition. This covers adding
    to an averager with no slots and `k == 0` on a non-empty tree.
    - `QueryPoint` requires exactly what keeps `dfsPoint` in range: every
      node the descent passes splits on an axis the probe has.
    - The nearest-neighbour searches require a query point of the tree's
      dimensionality. That is `DistanceMetric`'s documented contract
      (data/tree.go:34-36): both vectors have equal length. A custom metric
      in the source could accept a point of another length.
  - `Build` with zero dimensions divides by zero in `depth % dims` when
    there are items and every item has an empty location. Any other
    location length makes the sum check panic first. The model returns
    `Fail(ZeroDimensions)` in the first case and `Fail(DimensionMismatch)`
    in the second.
- **Coordinates and items:**
  - Coordinates are `real`. Items are `Item(id, loc)` values compared with
    `==`, as the source compares `Interface` values.
  - `Build` sorts the caller's slice in place. The slice it leaves behind is
    the in-order traversal of the tree, and that is what the model stores as
    `items`.
- **The nearest-neighbour searches:**
  - They take the metric as a parameter. Their optimality is proved for
    every metric with `PruningSound`, which has two parts:
    - `AxisLowerBound`: the distance measured on one axis is at most the
      full distance.
    - `AxisMonotone`: the one-axis distance grows with the coordinate gap.
  - `EuclideanSq`, `Manhattan` and `Chebyshev` are proved to satisfy
    `PruningSound`.
  - Each pruned search is proved equal to an unpruned brute-force pass over
    the items in visiting order. That pass is then proved to give the closest
    item, or the `k` closest items in order.
- **The `k`-slot buffer:**
  - It is `seq<Option<Neigh>>`, with a nil slot as `None`.
  - `NearestNeighbors` allocates capacity `k + 1`, so `insertAndTrim`'s
    `append` writes into the caller's backing array. The model therefore
    treats `insertAndTrim` as updating the caller's `k` slots in place.

## Model

| member | source | states |
|---|---|---|
| KdTree.KDTree.Len | data/kdtree.go:43-46 | the number of stored items; a built tree's `Len` is the number of items given (`KdTree.Build`'s ensures) |
| KdTree.NewKDTree | data/kdtree.go:25-31 | a new tree is empty, keeps the requested dimensionality and satisfies the tree invariant |
| KdTree.SortOn | data/kdtree.go:72-76 | the sort step yields a permutation of the slice that is ascending on the axis |
| KdTree.BuildTree | data/kdtree.go:67-88 | the built tree holds exactly the items it was given, with multiplicity |
| KdTree.BuildTreeValid | data/kdtree.go:67-88 | when every item has `dims` coordinates, each node's left subtree is at most and its right subtree at least the pivot on the node's axis, and every item has `dims` coordinates |
| KdTree.BuildTreeAxes | data/kdtree.go:73-85 | a node `n` levels below the start depth splits on axis `(depth + n) % dims` |
| KdTree.BuildTreeBalanced | data/kdtree.go:79-85 | the median split gives each node a left subtree as large as the right one or one larger |
| KdTree.BuildTreeShape | data/kdtree.go:67-88 | the built tree both cycles its axes and is balanced |
| KdTree.Build | data/kdtree.go:49-64 | fails iff some item has the wrong number of coordinates (DimensionMismatch) or there are items and the dimensionality is 0 (ZeroDimensions); on success the tree is valid, keeps its dimensionality and holds exactly the given items |
| KdTree.SumCheck | data/kdtree.go:50-58 | the sum check as the code writes it. `KdTree.EachHasDimsPassesSumCheck` shows that every correctly sized slice passes it, and `KdTree.SumCheckAdmitsWrongLengths` that some wrongly sized slices pass too |
| KdTree.EachHasDimsPassesSumCheck | data/kdtree.go:50-58 | the per-item dimensionality check implies the sum check the source performs |
| KdTree.SumCheckAdmitsWrongLengths | data/kdtree.go:50-58 | the sum check accepts two items of lengths 3 and 1 for dimensionality 2 |
| KdTree.DfsPoint | data/kdtree.go:96-118 | the descent only reports an item that is stored in the tree |
| KdTree.DfsPointComplete | data/kdtree.go:96-118 | in a valid tree the descent finds every stored item, even when pivots tie on the axis |
| KdTree.LongProbeInBounds | data/kdtree.go:96-118 | a probe with at least the tree's dimensionality never makes the descent read a missing coordinate |
| KdTree.QueryPoint | data/kdtree.go:90-93 | for every probe whose descent stays within its coordinates, true exactly when the probe is one of the tree's items |
| KdTree.ShortProbesAnswered | data/kdtree.go:96-118 | a probe of any length is answered false on an empty tree, and a one-coordinate probe on a one-item 2-D tree |
| KdTree.PrunedLeft | data/kdtree.go:152-161 | when the box lies above the pivot on the axis, the skipped left subtree holds nothing inside the box |
| KdTree.PrunedRight | data/kdtree.go:152-164 | when the box lies below the pivot on the axis, the skipped right subtree holds nothing inside the box |
| KdTree.DfsRange | data/kdtree.go:132-165 | every reported item is stored in the tree and lies inside the box. `KdTree.DfsRangeExact` adds completeness: it reports exactly the in-box items, with multiplicity |
| KdTree.DfsRangeExact | data/kdtree.go:132-165 | the pruned depth-first search reports, with multiplicity, exactly the tree's items inside the box |
| KdTree.QueryRange | data/kdtree.go:120-129 | fails iff there is not one range per dimension; otherwise the result holds exactly the items inside the box |
| Metrics.FarSideBound | data/kdtree.go:225-231 | for a pruning-sound metric, when the splitting plane lies between query and item, the query's one-axis distance to the plane bounds the item's distance from below |
| Metrics.EuclideanSq | data/tree.go:39-52 | fails iff the lengths differ; the sum of squares is non-negative and zero for equal vectors |
| Metrics.EuclideanSqSymmetric | data/tree.go:42-52 | swapping the arguments leaves the result unchanged |
| Metrics.SqDistPruningSound | data/tree.go:42-52 | the sum of squares satisfies the k-d tree's pruning hypothesis |
| Metrics.EuclideanLengthCheck | data/tree.go:54-57 | `Euclidean` fails exactly when `EuclideanSq` does, on unequal lengths |
| Metrics.Manhattan | data/tree.go:59-71 | fails iff the lengths differ; the sum of absolute differences is non-negative and zero for equal vectors |
| Metrics.ManhattanSymmetric | data/tree.go:61-71 | swapping the arguments leaves the result unchanged |
| Metrics.AbsDistPruningSound | data/tree.go:61-71 | the Manhattan distance satisfies the pruning hypothesis |
| Metrics.Chebyshev | data/tree.go:73-85 | fails iff the lengths differ; the largest absolute difference is non-negative and zero for equal vectors |
| Metrics.ChebyshevSymmetric | data/tree.go:75-85 | swapping the arguments leaves the result unchanged |
| Metrics.MaxDistPruningSound | data/tree.go:75-85 | the Chebyshev distance satisfies the pruning hypothesis |
| Metrics.CanberraLengthCheck | data/tree.go:87-92 | `Canberra` fails exactly on unequal lengths |
| Nearest.Consider | data/kdtree.go:218-223 | the best is the old one or the node at its exact distance, and is no farther than either |
| Nearest.ScanMinimal | data/kdtree.go:218-223 | the brute-force pass ends with nothing iff it started with nothing and saw no item; otherwise it holds an item it saw, at its exact distance, no farther than any item |
| Nearest.NnSearch | data/kdtree.go:200-244 | the search ends with nothing iff it started with nothing on an empty tree; otherwise it holds the starting best or a stored item at its exact distance |
| Nearest.PrunedFar | data/kdtree.go:225-241 | when the plane is strictly farther than the current best, visiting the far subtree would not change the best |
| Nearest.NnSearchIsScan | data/kdtree.go:200-244 | for a pruning-sound metric the pruned search returns what the unpruned pass over the items in visiting order returns |
| Nearest.NnSearchMinimal | data/kdtree.go:200-244 | for a pruning-sound metric the result is a stored item no farther than any other |
| Nearest.NearestNeighbor | data/kdtree.go:189-198 | nil iff the tree is empty; otherwise one of the tree's items, no farther than any item when the metric is pruning-sound |
| Nearest.NearestNeighborSqDist | data/kdtree.go:189-198 | with `EuclideanSq`'s distance the returned item is a closest one |
| Nearest.NearestNeighborAbsDist | data/kdtree.go:189-198 | with `Manhattan`'s distance the returned item is a closest one |
| Nearest.NearestNeighborMaxDist | data/kdtree.go:189-198 | with `Chebyshev`'s distance the returned item is a closest one |
| KNearest.InsertAndTrim | data/kdtree.go:175-185 | the slots before `at` stay, `at` gets the new entry, later slots move one up and the last entry falls off |
| KNearest.OfferFrom | data/kdtree.go:280-294 | the insertion loop from a given slot keeps the buffer's `k` slots. `KNearest.OfferPadded` and `KNearest.OfferDropped` state where the candidate lands |
| KNearest.Offer | data/kdtree.go:280-294 | the whole insertion loop keeps the buffer's `k` slots. `KNearest.OfferKeepsRanked` shows that it keeps the buffer best-to-worst |
| KNearest.OfferPadded | data/kdtree.go:280-294 | on a buffer holding a list followed by nil slots, the insertion loop inserts the candidate after every entry that is not strictly farther and keeps the first `k` |
| KNearest.OfferDropped | data/kdtree.go:280-294 | a candidate no closer than the worst entry of a full buffer leaves the buffer unchanged |
| KNearest.InsertKeepsSorted | data/kdtree.go:280-294 | insertion keeps a list sorted by distance and keeps every stored distance exact |
| KNearest.TakeInsert | data/kdtree.go:182-184 | dropping entries beyond the `k`-th before an insertion does not change the first `k` after it |
| KNearest.OfferKeepsRanked | data/kdtree.go:264-294 | offering keeps the buffer best-to-worst with its non-nil slots first and their distances exact |
| KNearest.KnnSearch | data/kdtree.go:264-312 | the search keeps the buffer's `k` slots. `KNearest.KnnSearchKeepsRanked` shows it keeps the ranking, and `KNearest.KnnSearchIsPass` that it equals the unpruned pass |
| KNearest.KnnSearchKeepsRanked | data/kdtree.go:264-312 | the whole search keeps that buffer invariant |
| KNearest.StopsWhenFull | data/kdtree.go:296-300 | the far side is skipped only when the buffer is full and the plane is at least as far as the worst entry |
| KNearest.PrunedFarK | data/kdtree.go:296-309 | for a pruning-sound metric, a skipped far subtree would not have changed a full buffer |
| KNearest.KnnSearchIsPass | data/kdtree.go:264-312 | for a pruning-sound metric the pruned search leaves the buffer the unpruned pass in visiting order leaves |
| KNearest.PassKeepsSorted | data/kdtree.go:264-312 | the unpruned pass leaves the first `k` entries of all candidates sorted by distance, in exact distance order |
| KNearest.PassTopK | data/kdtree.go:246-262 | the pass over all items yields `min(k, n)` items, in order of distance, none farther than an item left out |
| KNearest.FoundOfRanked | data/kdtree.go:255-260 | the collected items are at most `k`, in order of distance |
| KNearest.KnnSearchTopK | data/kdtree.go:246-312 | for a pruning-sound metric the search yields `min(k, n)` items of the tree, in order of distance, none farther than an item left out |
| KNearest.NearestNeighbors | data/kdtree.go:246-262 | at most `k` items in order of distance; with a pruning-sound metric exactly `min(k, Len)` of the tree's items with none left out closer |
| KNearest.NearestNeighborsSqDist | data/kdtree.go:246-262 | with `EuclideanSq`'s distance the result is the `k` nearest, in order |
| KNearest.NearestNeighborsAbsDist | data/kdtree.go:246-262 | with `Manhattan`'s distance the result is the `k` nearest, in order |
| KNearest.NearestNeighborsMaxDist | data/kdtree.go:246-262 | with `Chebyshev`'s distance the result is the `k` nearest, in order |
| Functional.MapF | functional/floats.go:16-26 | the output has the slice's length, and element `i` is `slice[i]` passed through every function in order; with no functions it is a copy |
| Functional.MapFusion | functional/floats.go:16-26 | mapping with `f` and then `g` is mapping once with `f` followed by `g` |
| Functional.Add | functional/floats.go:30-35 | adds `a` to its argument. Its partner `Functional.SumAfterAdd` states the effect on a mapped slice's total |
| Functional.Mul | functional/floats.go:37-42 | multiplies its argument by `a`. Its partner `Functional.SumAfterMul` states the effect on a mapped slice's total |
| Functional.Truth | functional/floats.go:58-67 | the 1/0 indicator of the predicate. Its partner `Functional.TruthCounts` ties its sum to `FilterF`'s count |
| Functional.SumAfterAdd | functional/floats.go:30-35 | mapping `Add(a)` before summing adds `a` once per element |
| Functional.SumAfterMul | functional/floats.go:37-42 | mapping `Mul(a)` before summing scales the sum by `a` |
| Functional.TruthCounts | functional/floats.go:58-67 | summing the `Truth(p)` indicator counts the elements `FilterF` keeps for `p` |
| Functional.ReduceF | functional/floats.go:69-80 | 0 for an empty slice, the only element for a singleton, the reference reduction otherwise |
| Functional.ReduceIsFoldLeft | functional/floats.go:69-80 | on a non-empty slice the reduction is the left fold over the rest, seeded with the first element |
| Functional.Sum | functional/floats.go:84-87 | the reducer that adds. `Functional.ReduceSum` states what reducing with it gives |
| Functional.Prod | functional/floats.go:89-92 | the reducer that multiplies. `Functional.ReduceProd` states what reducing with it gives |
| Functional.Max | functional/floats.go:94-97 | `math.Max` as a reducer. `Functional.ReduceMax` states what reducing with it gives |
| Functional.Min | functional/floats.go:99-102 | `math.Min` as a reducer. `Functional.ReduceMin` states what reducing with it gives |
| Functional.ReduceSum | functional/floats.go:84-87 | reducing with `Sum` adds the elements up (0 when there are none) |
| Functional.ReduceProd | functional/floats.go:89-92 | reducing a non-empty slice with `Prod` multiplies its elements |
| Functional.ReduceMax | functional/floats.go:94-97 | reducing a non-empty slice with `Max` gives an element no smaller than any other |
| Functional.ReduceMin | functional/floats.go:99-102 | reducing a non-empty slice with `Min` gives an element no larger than any other |
| Functional.FilterF | functional/floats.go:104-113 | the output keeps exactly the elements that satisfy the predicate, in order, each as often as in the slice |
| Functional.FilterAppend | functional/floats.go:104-113 | filtering distributes over concatenation, so the original order is kept |
| Functional.LessThan | functional/floats.go:117-122 | holds for arguments strictly below `a`. `Functional.ComparisonsPartition` relates it to the other two comparisons |
| Functional.GreaterThan | functional/floats.go:124-129 | holds for arguments strictly above `a`. `Functional.ComparisonsPartition` relates it to the other two comparisons |
| Functional.Equal | functional/floats.go:131-136 | holds for `a` only. `Functional.ComparisonsPartition` relates it to the other two comparisons |
| Functional.ComparisonsPartition | functional/floats.go:117-136 | `LessThan(a)`, `Equal(a)` and `GreaterThan(a)` split any slice: the three filtered lengths add up to its length |
| Functional.AnyOf | functional/floats.go:138-147 | true iff some predicate holds, and so false with no predicates |
| Functional.AllOf | functional/floats.go:149-159 | true iff every predicate holds, and so true with no predicates |
| Averaging.NewAverager | misc/averager.go:15-20 | `len` zero slots, insertion index 0 |
| Averaging.Add | misc/averager.go:22-29 | the value goes to the insertion index, wrapping to slot 0 when the buffer is full; nothing else changes; the index advances |
| Averaging.RingBuffer | misc/averager.go:15-29 | after `n` values the index is `(n-1) % len + 1`, and each of the last `len` values sits in slot (its position % `len`) |
| Averaging.FillsInOrder | misc/averager.go:15-29 | `len` values added to a new averager fill the slots in order |
| Num.ClampInt | num/interpolateInt.go:3-12 | the result is `x`, `min` or `max`, within `[min, max]` when `min <= max`, and `x` itself when `x` is in range |
| Num.ClampIsNearest | num/interpolateInt.go:3-12 | for `min <= max` the result is the point of `[min, max]` nearest to `x` |
| Num.ClampIdempotent | num/interpolateInt.go:3-12 | clamping twice is clamping once |
| Num.ClampMonotone | num/interpolateInt.go:3-12 | clamping preserves order |
| Num.ClampInvertedBounds | num/interpolateInt.go:3-12 | with `min > max` the source's test order returns `min` up to `min` and `max` above it |
| Num.Factorial | num/distributions.go:7-14 | the factorial is at least 1 and at least `n` |
| Num.FactorialDivisible | num/distributions.go:7-14 | every `k` in `1..n` divides `n!` |
| Num.FactorialMonotone | num/distributions.go:7-14 | the factorial does not decrease |
| Num.FactorialInt64 | num/distributions.go:7-14 | the loop computes `n!` wrapped to 64-bit two's complement, and 1 for `n <= 1` |
| Num.NoOverflowUpTo20 | num/distributions.go:7-20 | up to 20 the 64-bit loop is exact, so `Poisson`'s divisor is at least 1 |
| Num.Factorial21Overflows | num/distributions.go:7-20 | at 21 the 64-bit loop gives a negative number |
| CellNoise.GoRem | rand/cell_noise.go:17 | Go's remainder is below the divisor in magnitude and has the dividend's sign |
| CellNoise.GoRemCongruent | rand/cell_noise.go:17 | Go's remainder differs from the dividend by a multiple of the divisor |
| CellNoise.Hash | rand/cell_noise.go:15-22 | for non-negative coordinates the hash is non-negative and below `2^32` |
| CellNoise.HashNoWrap | rand/cell_noise.go:15-22 | for every input, including a hash fed back in, the reduced factors and the hash stay below 2^32 in magnitude, so Go's 64-bit products never wrap |
| CellNoise.HashShell | rand/cell_noise.go:15-22 | the hash of a reduced pair lies in the shell of its larger coordinate, in the upper half iff the first coordinate is the larger |
| CellNoise.HashInjective | rand/cell_noise.go:15-22 | distinct reduced pairs hash to distinct values |
| CellNoise.HashPeriodic | rand/cell_noise.go:15-22 | non-negative coordinates repeat every `2^16` cells |
| CellNoise.Seed | rand/cell_noise.go:178-181 | the seed is an index in `0..255` into the permutation table, equal to `hash % 256` for a non-negative hash |
| Pixels.PixIndex | pxu/general.go:3-8 | the index is a multiple of 4 |
| Pixels.PixSteps | pxu/general.go:3-8 | the next pixel is 4 bytes on and the next row `4*width` bytes on |
| Pixels.PixInBounds | pxu/general.go:3-8 | inside a `width` by `height` image, all four bytes of a pixel lie within the `4*width*height` buffer |
| Pixels.PixInverse | pxu/general.go:3-8 | column and row are recovered from the index by division |
| Pixels.PixInjective | pxu/general.go:3-8 | distinct pixels of one image have distinct indices |

## Left out

- Everything outside the core files is left out of this model:
  - the cameras of `pxu`;
  - Perlin noise and the noise-point generators of `rand`;
  - the random draws and the float helpers of `num`;
  - `grid2d`;
  - the example programs.
- `Poisson` (num/distributions.go:16-20) is floating-point arithmetic. Only
  the divisor it takes from `factorial` is modelled (`Num.NoOverflowUpTo20`,
  `Num.Factorial21Overflows`).
- `Euclidean`'s square root and `Canberra`'s per-axis quotient are floating
  point. Only their length checks are modelled.
- `Exp` and `Inv` in functional/floats.go are `math.Pow` and a float
  reciprocal. They are left out.
- `float64` is modelled as `real`. NaN, infinities, signed zeros and rounding
  are not modelled. `Max` and `Min` follow `math.Max` and `math.Min` on
  ordinary values only.
- `Items` and `Dimensions` are field reads. They are left out.
- The `Averager`'s printed average when it wraps around is I/O. It is left
  out.
- `sort.Slice` is not stable. The model fixes one sorted permutation, and
  only sortedness and permutation are proved about it and used.
- Go's `int` is 32 or 64 bits wide depending on the target. The model
  assumes a 64-bit `int`; 32-bit targets are not modelled.
  - On a 32-bit target, `hash`'s `a*a + a + b` wraps from `a = 46340` on,
    and `a*a` alone from 46341. The `factorial` loop wraps from 13 on.
- `CellNoise.Hash` computes on unbounded integers. With a 64-bit `int`, no
  wrap-around can occur, whoever the caller is: `hash` reduces both arguments with
  `% (1<<16)` before it multiplies (rand/cell_noise.go:17).
  - `CellNoise.HashNoWrap` proves that, for every input, the reduced factors
    and the result stay below 2^32 in magnitude.
  - This also covers the 3D callers, which pass a hash back in
    (`hash(hash(xc, yc), zc)`, rand/cell_noise.go:252).
- `Pixels.PixIndex`: 64-bit wrap-around is not modelled. Image sizes keep the
  index far below 2^63.
- `Nearest.NearestNeighbor`: the closest-item property is proved only for
  pruning-sound metrics.
  - `PruningSound` is stronger than the lower bound the source's comment
    describes. Without the monotonicity half, the pruning can skip a closer
    item.
  - `EuclideanSq`, `Manhattan` and `Chebyshev` are proved to satisfy it;
    `Canberra` is not.
- `KNearest.NearestNeighbors`: likewise, the top-`k` property is proved only
  for pruning-sound metrics.
  - It requires `k >= 1` on a non-empty tree, where the source indexes slot
    `k - 1`.
  - A negative `k` makes `make` panic; `k` is a `nat`.
- `Averaging.Add` requires at least one slot. With none, the source writes
  `Values[0]` out of range.
- KdTree.Build: models the per-item dimensionality check that the comment
  and the panic message at data/kdtree.go:50-58 describe, not the sum the
  code compares.
  - A slice whose lengths only add up builds a tree in the source and fails
    here: for dimensionality 2, locations `[1,2,3]` and `[4]`.
  - The as-written check is `KdTree.SumCheck`. `KdTree.SumCheckAdmitsWrongLengths`
    exhibits the gap (see Findings).
  - With dimensionality 0, at least one item and only empty locations, the
    source passes the sum check and divides by zero in `depth % dims`;
    `Build` returns `Fail(ZeroDimensions)`. A non-empty location at
    dimensionality 0 fails the sum check, and `Build` returns
    `Fail(DimensionMismatch)`.

## Findings

| source | as written | input that shows it | evidently intended | confidence | as-written member | corrected member |
|---|---|---|---|---|---|---|
| data/kdtree.go:50-58 | `Build` compares the sum of the items' location lengths with `dimensions * len(items)` | dimensionality 2 with locations of lengths 3 and 1: the sum is 4, so the check passes | every item has exactly `dimensions` coordinates, as the comment and the panic message say | high, not executed | KdTree.SumCheckAdmitsWrongLengths | KdTree.Build |
| num/distributions.go:7-14 | `factorial` multiplies in `int`, which on a 64-bit target wraps at 2^63 | `factorial(21)` wraps to -4249290049419214848, so `Poisson(lambda, 21)` divides by a negative number | the mathematical factorial, positive for every `n`; `Num.NoOverflowUpTo20` shows the loop agrees with it up to 20 | high, not executed | Num.Factorial21Overflows | Num.Factorial |
