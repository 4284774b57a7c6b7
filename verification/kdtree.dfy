/** The k-d tree of data/kdtree.go: its data model, construction, and the two
    queries that need no metric (point membership and range search).

    Go's `Interface` values are modelled as `Item`s: a location plus an
    identity, compared with `==` as the source compares interface values.
    `Build` sorts the caller's slice in place while it partitions it; the
    slice it leaves behind is the in-order traversal of the built tree, which
    is what the model stores as the tree's `items`. */
module KdTree {
  import opened Wrappers

  /** An indexed value: `id` stands for its identity (a pointer in the
      source's tests), `loc` is what `Location()` returns. */
  datatype Item = Item(id: nat, loc: seq<real>)

  /** `kdnode`; a nil `*kdnode` is `Nil`. */
  datatype Tree = Nil | Node(axis: nat, data: Item, left: Tree, right: Tree)

  /** `KDTree`: the root, the fixed dimensionality, and the item slice. */
  datatype KDTree = KDTree(root: Tree, dimensions: int, items: seq<Item>) {

    /** `Len`. */
    function Len(): nat {
      |items|
    }

    /** The state every tree reachable through `NewKDTree` and `Build` is in:
        the split invariant holds and `items` lists exactly the tree's nodes. */
    predicate Wf() {
      Valid(root, dimensions) && items == InOrder(root)
    }
  }

  /** One pair of `QueryRange`'s `ranges`: `[0]` is the minimum, `[1]` the maximum. */
  datatype Bounds = Bounds(min: real, max: real)

  /** `Location()[axis]`. Every call in the model reads an axis below the
      tree's dimensionality, where tree items and checked probes have a
      coordinate; the fallback value is never observed there. */
  function Coord(x: Item, axis: nat): real {
    if axis < |x.loc| then x.loc[axis] else 0.0
  }

  /** The items of a tree, left subtree first. */
  function InOrder(t: Tree): seq<Item> {
    match t
    case Nil => []
    case Node(_, x, l, r) => InOrder(l) + [x] + InOrder(r)
  }

  /** The split invariant: every node's axis is below `dims`, every item has
      `dims` coordinates, items of the left subtree are at most the pivot on
      the node's axis and items of the right subtree at least the pivot. */
  predicate Valid(t: Tree, dims: int) {
    match t
    case Nil => true
    case Node(ax, x, l, r) =>
      && ax < dims
      && |x.loc| == dims
      && Valid(l, dims)
      && Valid(r, dims)
      && (forall y | y in InOrder(l) :: Coord(y, ax) <= Coord(x, ax))
      && (forall y | y in InOrder(r) :: Coord(x, ax) <= Coord(y, ax))
  }

  lemma {:induction false} ValidItemsHaveDims(t: Tree, dims: int)
    requires Valid(t, dims)
    ensures forall y | y in InOrder(t) :: |y.loc| == dims
  {
    match t
    case Nil =>
    case Node(_, _, l, r) =>
      ValidItemsHaveDims(l, dims);
      ValidItemsHaveDims(r, dims);
  }

  // ---------------------------------------------------------------------
  // Construction
  // ---------------------------------------------------------------------

  /** `NewKDTree`: an empty tree of the given dimensionality (the source does
      not check it). */
  function NewKDTree(dimensions: int): (t: KDTree)
    ensures t.Wf() && t.Len() == 0 && t.root == Nil
    ensures t.dimensions == dimensions
  {
    KDTree(Nil, dimensions, [])
  }

  predicate SortedOn(s: seq<Item>, axis: nat) {
    forall i, j | 0 <= i < j < |s| :: Coord(s[i], axis) <= Coord(s[j], axis)
  }

  /** An item no greater than the head of a sorted slice can go in front. */
  lemma SortedCons(h: Item, t: seq<Item>, axis: nat)
    requires SortedOn(t, axis)
    requires |t| > 0 ==> Coord(h, axis) <= Coord(t[0], axis)
    ensures SortedOn([h] + t, axis)
  {
    var r := [h] + t;
    forall i, j | 0 <= i < j < |r| ensures Coord(r[i], axis) <= Coord(r[j], axis) {
      if i == 0 && j > 1 {
        assert Coord(t[0], axis) <= Coord(t[j - 1], axis);
      }
    }
  }

  function InsertOn(x: Item, s: seq<Item>, axis: nat): (r: seq<Item>)
    requires SortedOn(s, axis)
    ensures SortedOn(r, axis)
    ensures multiset(r) == multiset(s) + multiset{x}
    ensures |r| == |s| + 1
    ensures r[0] == x || (|s| > 0 && r[0] == s[0])
  {
    if |s| == 0 then [x]
    else if Coord(x, axis) <= Coord(s[0], axis) then
      SortedCons(x, s, axis);
      [x] + s
    else
      var rest := InsertOn(x, s[1..], axis);
      assert s == [s[0]] + s[1..];
      assert Coord(s[0], axis) <= Coord(rest[0], axis) by {
        if rest[0] != x {
          assert Coord(s[0], axis) <= Coord(s[1], axis);
        }
      }
      SortedCons(s[0], rest, axis);
      [s[0]] + rest
  }

  /** The `sort.Slice` step of `buildTree`: ascending on `axis`. The source's
      sort is not stable; this is one of the sorted permutations it may
      produce, and only sortedness and permutation are relied on. */
  function SortOn(s: seq<Item>, axis: nat): (r: seq<Item>)
    ensures SortedOn(r, axis)
    ensures multiset(r) == multiset(s)
    ensures |r| == |s|
  {
    if |s| == 0 then []
    else
      assert s == [s[0]] + s[1..];
      InsertOn(s[0], SortOn(s[1..], axis), axis)
  }

  /** A slice is its part before `m`, its element at `m` and its part after. */
  lemma SplitMultiset(s: seq<Item>, m: nat)
    requires m < |s|
    ensures multiset(s) == multiset(s[..m]) + multiset{s[m]} + multiset(s[m + 1..])
  {
    assert s == s[..m] + [s[m]] + s[m + 1..];
  }

  /** `buildTree`: an empty slice gives `Nil`; otherwise the slice sorted on
      axis `depth % dims` is split at its middle element, which becomes the
      pivot, and the parts before and after it are built one level deeper. */
  function BuildTree(items: seq<Item>, depth: nat, dims: nat): (t: Tree)
    requires dims >= 1
    ensures multiset(InOrder(t)) == multiset(items)
    decreases |items|
  {
    if |items| == 0 then Nil
    else
      var axis := depth % dims;
      var sorted := SortOn(items, axis);
      var m := |sorted| / 2;
      var l := BuildTree(sorted[..m], depth + 1, dims);
      var r := BuildTree(sorted[m + 1..], depth + 1, dims);
      SplitMultiset(sorted, m);
      Node(axis, sorted[m], l, r)
  }

  /** Node `n` levels below the root of a tree built at depth `depth` splits
      on axis `(depth + n) % dims`. */
  predicate CycledAxes(t: Tree, depth: nat, dims: nat)
    requires dims >= 1
  {
    match t
    case Nil => true
    case Node(ax, _, l, r) =>
      ax == depth % dims && CycledAxes(l, depth + 1, dims) && CycledAxes(r, depth + 1, dims)
  }

  /** Median split: at every node the left subtree holds `n/2` of the node's
      `n` items, so it is as large as the right one or one larger. */
  predicate Balanced(t: Tree) {
    match t
    case Nil => true
    case Node(_, _, l, r) =>
      |InOrder(r)| <= |InOrder(l)| <= |InOrder(r)| + 1 && Balanced(l) && Balanced(r)
  }

  /** In a slice sorted on `axis`, every item of a permutation of the part
      before index `m` is at most the item at `m`. */
  lemma BelowMedian(sorted: seq<Item>, m: int, axis: nat, part: seq<Item>)
    requires SortedOn(sorted, axis) && 0 <= m < |sorted|
    requires multiset(part) == multiset(sorted[..m])
    ensures forall y | y in part :: Coord(y, axis) <= Coord(sorted[m], axis)
  {
    forall y | y in part ensures Coord(y, axis) <= Coord(sorted[m], axis) {
      assert y in multiset(sorted[..m]);
      var k :| 0 <= k < m && sorted[..m][k] == y;
    }
  }

  /** The mirror image of `BelowMedian` for the part after index `m`. */
  lemma AboveMedian(sorted: seq<Item>, m: int, axis: nat, part: seq<Item>)
    requires SortedOn(sorted, axis) && 0 <= m < |sorted|
    requires multiset(part) == multiset(sorted[m + 1..])
    ensures forall y | y in part :: Coord(sorted[m], axis) <= Coord(y, axis)
  {
    forall y | y in part ensures Coord(sorted[m], axis) <= Coord(y, axis) {
      assert y in multiset(sorted[m + 1..]);
      var k :| 0 <= k < |sorted| - m - 1 && sorted[m + 1..][k] == y;
      assert sorted[m + 1 + k] == y;
    }
  }

  lemma PermutationKeepsDims(s: seq<Item>, u: seq<Item>, dims: int)
    requires multiset(u) <= multiset(s)
    requires EachHasDims(s, dims)
    ensures EachHasDims(u, dims)
  {
    forall x | x in u ensures |x.loc| == dims {
      assert x in multiset(u);
      assert x in multiset(s);
    }
  }

  lemma PartsAroundMedian(s: seq<Item>, m: int)
    requires 0 <= m < |s|
    ensures multiset(s[..m]) <= multiset(s) && multiset(s[m + 1..]) <= multiset(s)
  {
    assert s == s[..m] + [s[m]] + s[m + 1..];
  }

  lemma ValidNode(ax: nat, x: Item, l: Tree, r: Tree, dims: int)
    requires ax < dims && |x.loc| == dims && Valid(l, dims) && Valid(r, dims)
    requires forall y | y in InOrder(l) :: Coord(y, ax) <= Coord(x, ax)
    requires forall y | y in InOrder(r) :: Coord(x, ax) <= Coord(y, ax)
    ensures Valid(Node(ax, x, l, r), dims)
  {
  }

  /** Both parts of a median split, and the pivot, keep `dims`
      coordinates per item. */
  lemma SplitHasDims(items: seq<Item>, axis: nat, dims: nat)
    requires |items| > 0 && EachHasDims(items, dims)
    ensures var sorted := SortOn(items, axis); var m := |sorted| / 2;
      && EachHasDims(sorted[..m], dims)
      && EachHasDims(sorted[m + 1..], dims)
      && |sorted[m].loc| == dims
  {
    var sorted := SortOn(items, axis);
    var m := |sorted| / 2;
    PermutationKeepsDims(items, sorted, dims);
    PartsAroundMedian(sorted, m);
    PermutationKeepsDims(sorted, sorted[..m], dims);
    PermutationKeepsDims(sorted, sorted[m + 1..], dims);
    assert sorted[m] in sorted;
  }

  /** `buildTree` unfolded once at a non-empty slice. */
  lemma BuildTreeNode(items: seq<Item>, depth: nat, dims: nat, sorted: seq<Item>)
    requires dims >= 1 && |items| > 0
    requires sorted == SortOn(items, depth % dims)
    ensures BuildTree(items, depth, dims)
         == Node(depth % dims, sorted[|sorted| / 2],
                 BuildTree(sorted[..|sorted| / 2], depth + 1, dims),
                 BuildTree(sorted[|sorted| / 2 + 1..], depth + 1, dims))
  {
  }

  /** A median pivot over valid subtrees holding the two halves of a sorted
      slice makes a valid node. */
  lemma PivotValid(sorted: seq<Item>, axis: nat, dims: int, l: Tree, r: Tree)
    requires axis < dims && |sorted| > 0
    requires SortedOn(sorted, axis) && EachHasDims(sorted, dims)
    requires Valid(l, dims) && multiset(InOrder(l)) == multiset(sorted[..|sorted| / 2])
    requires Valid(r, dims) && multiset(InOrder(r)) == multiset(sorted[|sorted| / 2 + 1..])
    ensures Valid(Node(axis, sorted[|sorted| / 2], l, r), dims)
  {
    var m := |sorted| / 2;
    assert sorted[m] in sorted;
    BelowMedian(sorted, m, axis, InOrder(l));
    AboveMedian(sorted, m, axis, InOrder(r));
    ValidNode(axis, sorted[m], l, r, dims);
  }

  /** One node of `buildTree`, given that both subtrees are valid. */
  lemma BuildTreeValidStep(items: seq<Item>, depth: nat, dims: nat, sorted: seq<Item>, l: Tree, r: Tree)
    requires dims >= 1 && |items| > 0 && EachHasDims(items, dims)
    requires sorted == SortOn(items, depth % dims)
    requires l == BuildTree(sorted[..|sorted| / 2], depth + 1, dims) && Valid(l, dims)
    requires r == BuildTree(sorted[|sorted| / 2 + 1..], depth + 1, dims) && Valid(r, dims)
    ensures Valid(BuildTree(items, depth, dims), dims)
  {
    assert BuildTree(items, depth, dims) == Node(depth % dims, sorted[|sorted| / 2], l, r) by {
      BuildTreeNode(items, depth, dims, sorted);
    }
    assert EachHasDims(sorted, dims) by {
      PermutationKeepsDims(items, sorted, dims);
    }
    PivotValid(sorted, depth % dims, dims, l, r);
  }

  /** The tree `buildTree` returns satisfies the split invariant, provided
      every item has `dims` coordinates. */
  lemma {:induction false} BuildTreeValid(items: seq<Item>, depth: nat, dims: nat)
    requires dims >= 1
    requires EachHasDims(items, dims)
    ensures Valid(BuildTree(items, depth, dims), dims)
    decreases |items|
  {
    if |items| > 0 {
      var sorted := SortOn(items, depth % dims);
      var m := |sorted| / 2;
      SplitHasDims(items, depth % dims, dims);
      BuildTreeValid(sorted[..m], depth + 1, dims);
      BuildTreeValid(sorted[m + 1..], depth + 1, dims);
      BuildTreeValidStep(items, depth, dims, sorted,
        BuildTree(sorted[..m], depth + 1, dims), BuildTree(sorted[m + 1..], depth + 1, dims));
    }
  }

  lemma PermutationLength(a: seq<Item>, b: seq<Item>)
    requires multiset(a) == multiset(b)
    ensures |a| == |b|
  {
    assert |multiset(a)| == |a| && |multiset(b)| == |b|;
  }

  /** The node at depth `d` of the tree `buildTree` returns splits on axis
      `d % dims`. */
  lemma {:induction false} BuildTreeAxes(items: seq<Item>, depth: nat, dims: nat)
    requires dims >= 1
    ensures CycledAxes(BuildTree(items, depth, dims), depth, dims)
    decreases |items|
  {
    if |items| > 0 {
      var sorted := SortOn(items, depth % dims);
      var m := |sorted| / 2;
      var l := BuildTree(sorted[..m], depth + 1, dims);
      var r := BuildTree(sorted[m + 1..], depth + 1, dims);
      assert BuildTree(items, depth, dims) == Node(depth % dims, sorted[m], l, r);
      BuildTreeAxes(sorted[..m], depth + 1, dims);
      BuildTreeAxes(sorted[m + 1..], depth + 1, dims);
    }
  }

  /** A pivot over balanced subtrees holding the `n / 2` items before the
      middle of `n` and the `n - n / 2 - 1` after it makes a balanced node. */
  lemma PivotBalanced(n: nat, x: Item, axis: nat, l: Tree, r: Tree)
    requires Balanced(l) && |InOrder(l)| == n / 2
    requires Balanced(r) && |InOrder(r)| == n - n / 2 - 1
    ensures Balanced(Node(axis, x, l, r))
  {
    assert n - n / 2 - 1 <= n / 2 <= n - n / 2;
  }

  /** The subtrees `buildTree` makes from the two halves around the middle
      of a slice of `n` items hold `n / 2` and `n - n / 2 - 1` items. */
  lemma HalfSizes(sorted: seq<Item>, depth: nat, dims: nat, l: Tree, r: Tree)
    requires dims >= 1 && |sorted| > 0
    requires l == BuildTree(sorted[..|sorted| / 2], depth + 1, dims)
    requires r == BuildTree(sorted[|sorted| / 2 + 1..], depth + 1, dims)
    ensures |InOrder(l)| == |sorted| / 2
    ensures |InOrder(r)| == |sorted| - |sorted| / 2 - 1
  {
    PermutationLength(InOrder(l), sorted[..|sorted| / 2]);
    PermutationLength(InOrder(r), sorted[|sorted| / 2 + 1..]);
  }

  /** One node of `buildTree`, given that both subtrees are balanced: the
      left one receives `n/2` items and the right one the rest. */
  lemma BuildTreeBalancedStep(items: seq<Item>, depth: nat, dims: nat, sorted: seq<Item>, l: Tree, r: Tree)
    requires dims >= 1 && |items| > 0
    requires sorted == SortOn(items, depth % dims)
    requires l == BuildTree(sorted[..|sorted| / 2], depth + 1, dims) && Balanced(l)
    requires r == BuildTree(sorted[|sorted| / 2 + 1..], depth + 1, dims) && Balanced(r)
    ensures Balanced(BuildTree(items, depth, dims))
  {
    assert BuildTree(items, depth, dims) == Node(depth % dims, sorted[|sorted| / 2], l, r) by {
      BuildTreeNode(items, depth, dims, sorted);
    }
    HalfSizes(sorted, depth, dims, l, r);
    PivotBalanced(|sorted|, sorted[|sorted| / 2], depth % dims, l, r);
  }

  /** Every node of the tree `buildTree` returns has `n/2` of its subtree's
      other items on the left and the rest on the right. */
  lemma {:induction false} BuildTreeBalanced(items: seq<Item>, depth: nat, dims: nat)
    requires dims >= 1
    ensures Balanced(BuildTree(items, depth, dims))
    decreases |items|
  {
    if |items| > 0 {
      var sorted := SortOn(items, depth % dims);
      var m := |sorted| / 2;
      BuildTreeBalanced(sorted[..m], depth + 1, dims);
      BuildTreeBalanced(sorted[m + 1..], depth + 1, dims);
      BuildTreeBalancedStep(items, depth, dims, sorted,
        BuildTree(sorted[..m], depth + 1, dims), BuildTree(sorted[m + 1..], depth + 1, dims));
    }
  }

  /** The tree `buildTree` returns splits on the cycling axes and is balanced. */
  lemma BuildTreeShape(items: seq<Item>, depth: nat, dims: nat)
    requires dims >= 1
    ensures CycledAxes(BuildTree(items, depth, dims), depth, dims)
    ensures Balanced(BuildTree(items, depth, dims))
  {
    BuildTreeAxes(items, depth, dims);
    BuildTreeBalanced(items, depth, dims);
  }

  /** The sum of all items' location lengths: what `Build` checks. */
  function SumOfLengths(items: seq<Item>): nat {
    if |items| == 0 then 0 else SumOfLengths(items[..|items| - 1]) + |items[|items| - 1].loc|
  }

  /** `Build`'s check as the source writes it: the lengths must add up to
      `dims * len(items)`. */
  predicate SumCheck(items: seq<Item>, dims: int) {
    SumOfLengths(items) == dims * |items|
  }

  /** The check the source's comment and panic message describe: every item
      has exactly `dims` coordinates. */
  predicate EachHasDims(items: seq<Item>, dims: int) {
    forall x | x in items :: |x.loc| == dims
  }

  /** The intended per-item check never rejects what the sum check accepts
      only by accident: whenever each item has `dims` coordinates, the sum
      check passes too. */
  lemma {:induction false} EachHasDimsPassesSumCheck(items: seq<Item>, dims: int)
    requires EachHasDims(items, dims)
    ensures SumCheck(items, dims)
    decreases |items|
  {
    if |items| > 0 {
      var init := items[..|items| - 1];
      assert forall x | x in init :: x in items;
      EachHasDimsPassesSumCheck(init, dims);
      assert items[|items| - 1] in items;
      assert dims * |items| == dims * |init| + dims;
    }
  }

  /** The sum check admits a slice whose items do not all have `dims`
      coordinates: with `dims == 2`, lengths 3 and 1 add up to 4. */
  lemma SumCheckAdmitsWrongLengths()
    ensures var items := [Item(0, [1.0, 2.0, 3.0]), Item(1, [4.0])];
      SumCheck(items, 2) && !EachHasDims(items, 2)
  {
    var items := [Item(0, [1.0, 2.0, 3.0]), Item(1, [4.0])];
    assert items[..1] == [Item(0, [1.0, 2.0, 3.0])];
    assert items[..1][..0] == [];
    assert items[1] in items;
  }

  /** `Build`, with the per-item dimension check. It fails with
      `DimensionMismatch` when an item's location has the wrong length, and
      with `ZeroDimensions` where the source divides by a zero dimensionality
      (`depth % 0`). Otherwise the new tree keeps the dimensionality, holds
      the same items (reordered) and satisfies the split invariant. */
  function Build(t: KDTree, items: seq<Item>): (r: Result<KDTree, Error>)
    ensures r.Fail? <==> !EachHasDims(items, t.dimensions) || (t.dimensions == 0 && |items| > 0)
    ensures r.Fail? && !EachHasDims(items, t.dimensions) ==> r.error == DimensionMismatch
    ensures r.Fail? && EachHasDims(items, t.dimensions) ==> r.error == ZeroDimensions
    ensures r.Ok? ==> r.value.Wf()
    ensures r.Ok? ==> r.value.dimensions == t.dimensions
    ensures r.Ok? ==> r.value.Len() == |items|
    ensures r.Ok? ==> multiset(r.value.items) == multiset(items)
  {
    if !EachHasDims(items, t.dimensions) then Fail(DimensionMismatch)
    else if |items| == 0 then Ok(KDTree(Nil, t.dimensions, []))
    else if t.dimensions == 0 then Fail(ZeroDimensions)
    else
      assert t.dimensions >= 1 by {
        assert |items[0].loc| == t.dimensions;
      }
      var root := BuildTree(items, 0, t.dimensions);
      BuildTreeValid(items, 0, t.dimensions);
      assert |InOrder(root)| == |items| by {
        assert |multiset(InOrder(root))| == |multiset(items)|;
      }
      Ok(KDTree(root, t.dimensions, InOrder(root)))
  }

  // ---------------------------------------------------------------------
  // Point membership
  // ---------------------------------------------------------------------

  /** `dfsPoint`: a hit on identity stops the search; otherwise the probe
      descends left when it is at most the pivot on the node's axis, and right
      when it is at least the pivot and the left side did not find it. */
  function DfsPoint(t: Tree, probe: Item): (found: bool)
    ensures found ==> probe in InOrder(t)
  {
    match t
    case Nil => false
    case Node(ax, x, l, r) =>
      if x == probe then true
      else
        var itemVal := Coord(probe, ax);
        var nodeVal := Coord(x, ax);
        var foundLeft := itemVal <= nodeVal && DfsPoint(l, probe);
        foundLeft || (itemVal >= nodeVal && DfsPoint(r, probe))
  }

  /** Every item stored in a tree with the split invariant is found. */
  lemma {:induction false} DfsPointComplete(t: Tree, dims: int, probe: Item)
    requires Valid(t, dims)
    requires probe in InOrder(t)
    ensures DfsPoint(t, probe)
  {
    match t
    case Node(ax, x, l, r) =>
      if x != probe {
        if probe in InOrder(l) {
          DfsPointComplete(l, dims, probe);
        } else {
          assert probe in InOrder(r);
          DfsPointComplete(r, dims, probe);
        }
      }
  }

  /** The inputs on which `dfsPoint` does not panic: every node the descent
      compares the probe with, before it finds the probe, is on an axis the
      probe has a coordinate for. An empty tree reads no coordinate at all. */
  predicate DescentInBounds(t: Tree, probe: Item) {
    match t
    case Nil => true
    case Node(ax, x, l, r) =>
      if x == probe then true
      else if ax >= |probe.loc| then false
      else
        var goesLeft := Coord(probe, ax) <= Coord(x, ax);
        var goesRight := !(goesLeft && DfsPoint(l, probe)) && Coord(probe, ax) >= Coord(x, ax);
        (goesLeft ==> DescentInBounds(l, probe)) && (goesRight ==> DescentInBounds(r, probe))
  }

  /** A probe with at least the tree's dimensionality never reads a missing
      coordinate. */
  lemma {:induction false} LongProbeInBounds(t: Tree, dims: int, probe: Item)
    requires Valid(t, dims)
    requires |probe.loc| >= dims
    ensures DescentInBounds(t, probe)
  {
    match t
    case Nil =>
    case Node(_, _, l, r) =>
      LongProbeInBounds(l, dims, probe);
      LongProbeInBounds(r, dims, probe);
  }

  /** `QueryPoint`: true exactly when the probe is one of the tree's items.
      The source indexes the probe on the axis of each node it passes, so the
      precondition is that this descent stays within the probe's
      coordinates. */
  function QueryPoint(t: KDTree, item: Item): (found: bool)
    requires t.Wf()
    requires DescentInBounds(t.root, item)
    ensures found <==> item in t.items
  {
    if item in t.items then
      DfsPointComplete(t.root, t.dimensions, item);
      DfsPoint(t.root, item)
    else
      DfsPoint(t.root, item)
  }

  /** A probe of any length is answered on an empty tree, and a one-coordinate
      probe is answered on a one-item 2-D tree, whose root splits on axis 0. */
  lemma ShortProbesAnswered()
    ensures !QueryPoint(NewKDTree(2), Item(7, []))
    ensures var t := KDTree(Node(0, Item(0, [1.0, 2.0]), Nil, Nil), 2, [Item(0, [1.0, 2.0])]);
      t.Wf() && DescentInBounds(t.root, Item(7, [5.0])) && !QueryPoint(t, Item(7, [5.0]))
  {
    var t := KDTree(Node(0, Item(0, [1.0, 2.0]), Nil, Nil), 2, [Item(0, [1.0, 2.0])]);
    assert t.items == InOrder(t.root);
  }

  // ---------------------------------------------------------------------
  // Range query
  // ---------------------------------------------------------------------

  /** Every coordinate lies in its inclusive `[min, max]`. */
  predicate InRange(x: Item, ranges: seq<Bounds>) {
    forall a | 0 <= a < |ranges| :: ranges[a].min <= Coord(x, a) <= ranges[a].max
  }

  /** The brute-force oracle: the items of `s` inside the box, in order. */
  function Select(s: seq<Item>, ranges: seq<Bounds>): seq<Item> {
    if |s| == 0 then []
    else (if InRange(s[0], ranges) then [s[0]] else []) + Select(s[1..], ranges)
  }

  lemma {:induction false} SelectMembers(s: seq<Item>, ranges: seq<Bounds>)
    ensures forall x :: x in Select(s, ranges) <==> x in s && InRange(x, ranges)
  {
    if |s| > 0 {
      SelectMembers(s[1..], ranges);
      assert s == [s[0]] + s[1..];
    }
  }

  lemma {:induction false} SelectAppend(a: seq<Item>, b: seq<Item>, ranges: seq<Bounds>)
    ensures Select(a + b, ranges) == Select(a, ranges) + Select(b, ranges)
    decreases |a|
  {
    if |a| == 0 {
      assert a + b == b;
    } else {
      assert (a + b)[0] == a[0] && (a + b)[1..] == a[1..] + b;
      SelectAppend(a[1..], b, ranges);
      var head := if InRange(a[0], ranges) then [a[0]] else [];
      assert Select(a + b, ranges) == head + Select(a[1..] + b, ranges);
      assert Select(a, ranges) == head + Select(a[1..], ranges);
    }
  }

  /** `dfsRange`: the pivot is reported when it is inside the box; the left
      subtree is searched when the pivot is in the axis range or the range
      lies at or below it, the right subtree when the pivot is in the axis
      range or the range lies at or above it. */
  function DfsRange(t: Tree, ranges: seq<Bounds>): (found: seq<Item>)
    requires Valid(t, |ranges|)
    ensures forall y | y in found :: y in InOrder(t) && InRange(y, ranges)
  {
    match t
    case Nil => []
    case Node(ax, x, l, r) =>
      var here := if InRange(x, ranges) then [x] else [];
      var axialRange := ranges[ax];
      var nodeAxialVal := Coord(x, ax);
      var nodeInRange := axialRange.min <= nodeAxialVal <= axialRange.max;
      var fromLeft := if nodeInRange || axialRange.max <= nodeAxialVal then DfsRange(l, ranges) else [];
      var fromRight := if nodeInRange || axialRange.min >= nodeAxialVal then DfsRange(r, ranges) else [];
      here + fromLeft + fromRight
  }

  lemma {:induction false} SelectNone(s: seq<Item>, ranges: seq<Bounds>)
    requires forall y | y in s :: !InRange(y, ranges)
    ensures Select(s, ranges) == []
  {
    if |s| > 0 {
      assert s[0] in s;
      assert forall y | y in s[1..] :: y in s;
      SelectNone(s[1..], ranges);
    }
  }

  /** When the box lies strictly above the pivot on the node's axis, nothing
      in the left subtree is inside it. */
  lemma PrunedLeft(l: Tree, x: Item, ax: nat, ranges: seq<Bounds>)
    requires ax < |ranges|
    requires forall y | y in InOrder(l) :: Coord(y, ax) <= Coord(x, ax)
    requires Coord(x, ax) < ranges[ax].min
    ensures Select(InOrder(l), ranges) == []
  {
    assert forall y | y in InOrder(l) :: !InRange(y, ranges) by {
      forall y | y in InOrder(l) ensures !InRange(y, ranges) {
        assert !(ranges[ax].min <= Coord(y, ax));
      }
    }
    SelectNone(InOrder(l), ranges);
  }

  /** When the box lies strictly below the pivot on the node's axis, nothing
      in the right subtree is inside it. */
  lemma PrunedRight(r: Tree, x: Item, ax: nat, ranges: seq<Bounds>)
    requires ax < |ranges|
    requires forall y | y in InOrder(r) :: Coord(x, ax) <= Coord(y, ax)
    requires ranges[ax].max < Coord(x, ax)
    ensures Select(InOrder(r), ranges) == []
  {
    assert forall y | y in InOrder(r) :: !InRange(y, ranges) by {
      forall y | y in InOrder(r) ensures !InRange(y, ranges) {
        assert !(Coord(y, ax) <= ranges[ax].max);
      }
    }
    SelectNone(InOrder(r), ranges);
  }

  lemma SelectAround(a: seq<Item>, x: Item, b: seq<Item>, ranges: seq<Bounds>)
    ensures Select(a + [x] + b, ranges)
         == Select(a, ranges) + (if InRange(x, ranges) then [x] else []) + Select(b, ranges)
  {
    assert Select([x], ranges) == (if InRange(x, ranges) then [x] else []) by {
      assert [x][1..] == [];
    }
    calc {
      Select(a + [x] + b, ranges);
      { SelectAppend(a + [x], b, ranges); }
      Select(a + [x], ranges) + Select(b, ranges);
      { SelectAppend(a, [x], ranges); }
      Select(a, ranges) + Select([x], ranges) + Select(b, ranges);
    }
  }

  /** The pruned search reports, with multiplicity, exactly the tree's items
      that lie inside the box: nothing inside is missed, nothing outside is
      reported. */
  lemma {:induction false} DfsRangeExact(t: Tree, ranges: seq<Bounds>)
    requires Valid(t, |ranges|)
    ensures multiset(DfsRange(t, ranges)) == multiset(Select(InOrder(t), ranges))
  {
    match t
    case Nil =>
    case Node(ax, x, l, r) =>
      var here := if InRange(x, ranges) then [x] else [];
      var v := Coord(x, ax);
      var nodeInRange := ranges[ax].min <= v <= ranges[ax].max;
      var fromLeft := if nodeInRange || ranges[ax].max <= v then DfsRange(l, ranges) else [];
      var fromRight := if nodeInRange || ranges[ax].min >= v then DfsRange(r, ranges) else [];
      assert DfsRange(t, ranges) == here + fromLeft + fromRight;
      if nodeInRange || ranges[ax].max <= v {
        DfsRangeExact(l, ranges);
      } else {
        PrunedLeft(l, x, ax, ranges);
      }
      if nodeInRange || ranges[ax].min >= v {
        DfsRangeExact(r, ranges);
      } else {
        PrunedRight(r, x, ax, ranges);
      }
      SelectAround(InOrder(l), x, InOrder(r), ranges);
      Rearrange(here, fromLeft, fromRight, Select(InOrder(l), ranges), Select(InOrder(r), ranges));
  }

  lemma Rearrange(here: seq<Item>, a: seq<Item>, b: seq<Item>, a': seq<Item>, b': seq<Item>)
    requires multiset(a) == multiset(a') && multiset(b) == multiset(b')
    ensures multiset(here + a + b) == multiset(a' + here + b')
  {
  }

  /** `QueryRange`: fails with `DimensionMismatch` unless there is one
      `[min, max]` pair per dimension; otherwise it returns exactly the
      tree's items inside the box (with multiplicity; order unspecified). */
  function QueryRange(t: KDTree, ranges: seq<Bounds>): (r: Result<seq<Item>, Error>)
    requires t.Wf()
    ensures r.Fail? <==> |ranges| != t.dimensions
    ensures r.Fail? ==> r.error == DimensionMismatch
    ensures r.Ok? ==> multiset(r.value) == multiset(Select(t.items, ranges))
    ensures r.Ok? ==> forall x :: x in r.value <==> x in t.items && InRange(x, ranges)
  {
    if |ranges| != t.dimensions then Fail(DimensionMismatch)
    else
      DfsRangeExact(t.root, ranges);
      SelectMembers(t.items, ranges);
      var found := DfsRange(t.root, ranges);
      assert forall x :: x in found <==> x in multiset(found);
      Ok(found)
  }
}
