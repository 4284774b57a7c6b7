/** The single nearest-neighbour search of data/kdtree.go (`NearestNeighbor`
    and `nnSearch`).

    The search is a branch-and-bound descent: it visits the subtree on the
    query's side of the splitting plane first, then the node itself, and
    visits the other subtree only when the metric restricted to the splitting
    axis does not already exceed the best distance found so far. The model
    proves that this pruned search returns the same candidate as a plain scan
    of the tree's items in the search's visiting order, provided the metric
    satisfies `PruningSound`; the scan's result is then a minimum. */
module Nearest {
  import opened Wrappers
  import opened Metrics
  import opened KdTree

  /** `neigh`: a candidate item and its distance from the query. The source's
      empty candidate (nil node, infinite distance) is `None`. */
  datatype Neigh = Neigh(item: Item, dist: real)

  /** `searchPt[axis]`; every call in the model reads an axis below the
      query's length. */
  function QueryCoord(q: seq<real>, axis: nat): real {
    if axis < |q| then q[axis] else 0.0
  }

  /** Both searches go down the left subtree first when the query is at most
      the pivot on the node's axis, and the right subtree first otherwise. */
  predicate LeftFirst(q: seq<real>, ax: nat, x: Item) {
    QueryCoord(q, ax) <= Coord(x, ax)
  }

  /** The order in which an unpruned search would meet the items: the near
      subtree, then the node, then the far subtree. */
  function Order(t: Tree, q: seq<real>): (s: seq<Item>)
    ensures multiset(s) == multiset(InOrder(t))
    ensures |s| == |InOrder(t)|
  {
    match t
    case Nil => []
    case Node(ax, x, l, r) =>
      if LeftFirst(q, ax, x) then Order(l, q) + [x] + Order(r, q)
      else Order(r, q) + [x] + Order(l, q)
  }

  /** The search's visit of a node: the node's own candidate replaces the
      best when there is none yet or when it is strictly closer. */
  function Consider(best: Option<Neigh>, x: Item, q: seq<real>, dist: DistanceMetric): (r: Option<Neigh>)
    ensures r.Some?
    ensures r == best || r == Some(Neigh(x, dist(x.loc, q)))
    ensures r.value.dist <= dist(x.loc, q)
    ensures best.Some? ==> r.value.dist <= best.value.dist
  {
    var d := dist(x.loc, q);
    if best.None? || d < best.value.dist then Some(Neigh(x, d)) else best
  }

  /** Brute force: offer every item of `s`, in order, to the candidate. */
  function Scan(s: seq<Item>, q: seq<real>, best: Option<Neigh>, dist: DistanceMetric): Option<Neigh>
    decreases |s|
  {
    if |s| == 0 then best else Scan(s[1..], q, Consider(best, s[0], q, dist), dist)
  }

  /** A candidate's stored distance is its item's distance from the query. */
  predicate Exact(n: Neigh, q: seq<real>, dist: DistanceMetric) {
    n.dist == dist(n.item.loc, q)
  }

  /** The scan ends with a candidate iff it started with one or saw an item;
      the candidate is the starting one or an item of `s` at its exact
      distance, and it is no farther than the start and than every item. */
  lemma {:induction false} ScanMinimal(s: seq<Item>, q: seq<real>, best: Option<Neigh>, dist: DistanceMetric)
    ensures var r := Scan(s, q, best, dist);
      && (r.None? <==> best.None? && |s| == 0)
      && (r == best || (r.Some? && r.value.item in s && Exact(r.value, q, dist)))
      && (best.Some? && r.Some? ==> r.value.dist <= best.value.dist)
      && (forall y | y in s :: r.Some? && r.value.dist <= dist(y.loc, q))
    decreases |s|
  {
    if |s| > 0 {
      var b := Consider(best, s[0], q, dist);
      ScanMinimal(s[1..], q, b, dist);
      assert forall y | y in s :: y == s[0] || y in s[1..];
    }
  }

  lemma {:induction false} ScanAppend(a: seq<Item>, b: seq<Item>, q: seq<real>, best: Option<Neigh>, dist: DistanceMetric)
    ensures Scan(a + b, q, best, dist) == Scan(b, q, Scan(a, q, best, dist), dist)
    decreases |a|
  {
    if |a| == 0 {
      assert a + b == b;
    } else {
      assert (a + b)[1..] == a[1..] + b;
      ScanAppend(a[1..], b, q, Consider(best, a[0], q, dist), dist);
    }
  }

  /** Items that are no closer than the candidate leave it unchanged. */
  lemma {:induction false} ScanKeeps(s: seq<Item>, q: seq<real>, best: Option<Neigh>, dist: DistanceMetric)
    requires best.Some?
    requires forall y | y in s :: best.value.dist <= dist(y.loc, q)
    ensures Scan(s, q, best, dist) == best
    decreases |s|
  {
    if |s| > 0 {
      assert s[0] in s;
      assert forall y | y in s[1..] :: y in s;
      ScanKeeps(s[1..], q, best, dist);
    }
  }

  /** `nnSearch`: near subtree, node, then the far subtree unless the
      single-axis distance to the splitting plane exceeds the candidate's
      distance. The result is the starting candidate or one of the tree's
      items at its exact distance. */
  function NnSearch(t: Tree, q: seq<real>, best: Option<Neigh>, dist: DistanceMetric): (r: Option<Neigh>)
    requires Valid(t, |q|)
    ensures r.None? <==> best.None? && t == Nil
    ensures r == best || (r.Some? && r.value.item in InOrder(t) && Exact(r.value, q, dist))
  {
    match t
    case Nil => best
    case Node(ax, x, l, r) =>
      var leftFirst := q[ax] <= Coord(x, ax);
      var b := NnSearch(if leftFirst then l else r, q, best, dist);
      var b' := Consider(b, x, q, dist);
      var searchToAxis := AxisDist(dist, q[ax], Coord(x, ax));
      if searchToAxis <= b'.value.dist then NnSearch(if leftFirst then r else l, q, b', dist)
      else b'
  }

  /** Every item of the subtree that lies beyond the splitting plane, as seen
      from the query, is at least the single-axis distance to the plane away. */
  lemma FarSide(t: Tree, q: seq<real>, dist: DistanceMetric, y: Item)
    requires PruningSound(dist)
    requires t.Node? && Valid(t, |q|)
    requires y in InOrder(Far(t, q))
    ensures AxisDist(dist, q[t.axis], Coord(t.data, t.axis)) <= dist(y.loc, q)
  {
    ValidItemsHaveDims(Far(t, q), |q|);
    FarSideBound(dist, y.loc, q, t.axis, Coord(t.data, t.axis));
  }

  /** The near subtree of a node, as seen from the query. */
  function Near(t: Tree, q: seq<real>): (r: Tree)
    requires t.Node?
    ensures r == t.left || r == t.right
  {
    if LeftFirst(q, t.axis, t.data) then t.left else t.right
  }

  /** The far subtree of a node, as seen from the query. */
  function Far(t: Tree, q: seq<real>): (r: Tree)
    requires t.Node?
    ensures r == t.left || r == t.right
  {
    if LeftFirst(q, t.axis, t.data) then t.right else t.left
  }

  /** The scan in visiting order, split at a node. */
  lemma ScanAtNode(t: Tree, q: seq<real>, best: Option<Neigh>, dist: DistanceMetric)
    requires t.Node?
    ensures Scan(Order(t, q), q, best, dist)
         == Scan(Order(Far(t, q), q), q, Consider(Scan(Order(Near(t, q), q), q, best, dist), t.data, q, dist), dist)
  {
    var near, far, x := Near(t, q), Far(t, q), t.data;
    assert Order(t, q) == Order(near, q) + [x] + Order(far, q);
    var b := Scan(Order(near, q), q, best, dist);
    ScanAppend(Order(near, q) + [x], Order(far, q), q, best, dist);
    ScanAppend(Order(near, q), [x], q, best, dist);
    assert Scan([x], q, b, dist) == Consider(b, x, q, dist) by {
      assert [x][1..] == [];
    }
  }

  /** The pruning test is sound: when it skips the far subtree, no item there
      would have replaced the candidate. */
  lemma PrunedFar(t: Tree, q: seq<real>, best: Option<Neigh>, dist: DistanceMetric)
    requires PruningSound(dist)
    requires t.Node? && Valid(t, |q|)
    requires best.Some? && best.value.dist < AxisDist(dist, q[t.axis], Coord(t.data, t.axis))
    ensures Scan(Order(Far(t, q), q), q, best, dist) == best
  {
    var far := Far(t, q);
    forall y | y in Order(far, q) ensures best.value.dist <= dist(y.loc, q) {
      assert y in multiset(InOrder(far));
      FarSide(t, q, dist, y);
    }
    ScanKeeps(Order(far, q), q, best, dist);
  }

  /** One step of `nnSearch` at a node, in terms of `Near` and `Far`. */
  lemma NnSearchAtNode(t: Tree, q: seq<real>, best: Option<Neigh>, dist: DistanceMetric)
    requires Valid(t, |q|) && t.Node?
    ensures var b' := Consider(NnSearch(Near(t, q), q, best, dist), t.data, q, dist);
      NnSearch(t, q, best, dist)
      == if AxisDist(dist, q[t.axis], Coord(t.data, t.axis)) <= b'.value.dist then NnSearch(Far(t, q), q, b', dist) else b'
  {
  }

  /** One node of the pruned search, given that it agrees with the scan on
      the near subtree and, when it gets there, on the far subtree. */
  lemma NnSearchIsScanAtNode(t: Tree, q: seq<real>, best: Option<Neigh>, dist: DistanceMetric)
    requires PruningSound(dist)
    requires Valid(t, |q|) && t.Node?
    requires NnSearch(Near(t, q), q, best, dist) == Scan(Order(Near(t, q), q), q, best, dist)
    requires var b' := Consider(NnSearch(Near(t, q), q, best, dist), t.data, q, dist);
      AxisDist(dist, q[t.axis], Coord(t.data, t.axis)) <= b'.value.dist ==>
      NnSearch(Far(t, q), q, b', dist) == Scan(Order(Far(t, q), q), q, b', dist)
    ensures NnSearch(t, q, best, dist) == Scan(Order(t, q), q, best, dist)
  {
    var b' := Consider(NnSearch(Near(t, q), q, best, dist), t.data, q, dist);
    var searchToAxis := AxisDist(dist, q[t.axis], Coord(t.data, t.axis));
    assert NnSearch(t, q, best, dist) == if searchToAxis <= b'.value.dist then NnSearch(Far(t, q), q, b', dist) else b' by {
      NnSearchAtNode(t, q, best, dist);
    }
    assert Scan(Order(t, q), q, best, dist) == Scan(Order(Far(t, q), q), q, b', dist) by {
      ScanAtNode(t, q, best, dist);
    }
    if searchToAxis > b'.value.dist {
      PrunedFar(t, q, b', dist);
    }
  }

  /** With a pruning-sound metric the pruned search finds exactly what the
      brute-force scan in visiting order finds: a pruned subtree never holds
      an item strictly closer than the candidate. */
  lemma {:induction false} NnSearchIsScan(t: Tree, q: seq<real>, best: Option<Neigh>, dist: DistanceMetric)
    requires PruningSound(dist)
    requires Valid(t, |q|)
    ensures NnSearch(t, q, best, dist) == Scan(Order(t, q), q, best, dist)
  {
    if t.Node? {
      NnSearchIsScan(Near(t, q), q, best, dist);
      var b' := Consider(NnSearch(Near(t, q), q, best, dist), t.data, q, dist);
      if AxisDist(dist, q[t.axis], Coord(t.data, t.axis)) <= b'.value.dist {
        NnSearchIsScan(Far(t, q), q, b', dist);
      }
      NnSearchIsScanAtNode(t, q, best, dist);
    }
  }

  /** Started without a candidate, the search ends at an item no farther from
      the query than any item of the tree. */
  lemma NnSearchMinimal(t: Tree, q: seq<real>, dist: DistanceMetric)
    requires Valid(t, |q|)
    ensures PruningSound(dist) ==>
      var r := NnSearch(t, q, None, dist);
      forall y | y in InOrder(t) :: r.Some? && Exact(r.value, q, dist) && r.value.dist <= dist(y.loc, q)
  {
    if PruningSound(dist) {
      NnSearchIsScan(t, q, None, dist);
      ScanMinimal(Order(t, q), q, None, dist);
      assert forall y | y in InOrder(t) :: y in multiset(Order(t, q));
    }
  }

  /** `NearestNeighbor`: `None` exactly when the tree is empty; otherwise one
      of the tree's items, and with a pruning-sound metric one at minimal
      distance from the query (which one among equally near items depends on
      the visiting order). A non-empty tree needs a query of the tree's
      dimensionality: the source indexes it on every visited axis and the
      source's metrics reject vectors of different lengths. */
  function NearestNeighbor(t: KDTree, dist: DistanceMetric, point: seq<real>): (r: Option<Item>)
    requires t.Wf()
    requires t.root != Nil ==> |point| == t.dimensions
    ensures r.None? <==> t.Len() == 0
    ensures r.Some? ==> r.value in t.items
    ensures PruningSound(dist) && r.Some? ==>
      forall y | y in t.items :: dist(r.value.loc, point) <= dist(y.loc, point)
  {
    var best := NnSearch(t.root, point, None, dist);
    assert t.root == Nil <==> t.Len() == 0;
    NnSearchMinimal(t.root, point, dist);
    if best.None? then None else Some(best.value.item)
  }

  /** The three metrics of data/tree.go that the tree can use directly all
      satisfy the hypothesis, so with them the result is a true nearest
      neighbour. */
  lemma NearestNeighborSqDist(t: KDTree, point: seq<real>)
    requires t.Wf()
    requires t.root != Nil ==> |point| == t.dimensions
    ensures var r := NearestNeighbor(t, SqDist, point);
      r.Some? ==> forall y | y in t.items :: SqDist(r.value.loc, point) <= SqDist(y.loc, point)
  {
    SqDistPruningSound();
  }

  lemma NearestNeighborAbsDist(t: KDTree, point: seq<real>)
    requires t.Wf()
    requires t.root != Nil ==> |point| == t.dimensions
    ensures var r := NearestNeighbor(t, AbsDist, point);
      r.Some? ==> forall y | y in t.items :: AbsDist(r.value.loc, point) <= AbsDist(y.loc, point)
  {
    AbsDistPruningSound();
  }

  lemma NearestNeighborMaxDist(t: KDTree, point: seq<real>)
    requires t.Wf()
    requires t.root != Nil ==> |point| == t.dimensions
    ensures var r := NearestNeighbor(t, MaxDist, point);
      r.Some? ==> forall y | y in t.items :: MaxDist(r.value.loc, point) <= MaxDist(y.loc, point)
  {
    MaxDistPruningSound();
  }
}
