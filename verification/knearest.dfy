/** The k-nearest-neighbour search of data/kdtree.go (`insertAndTrim`,
    `NearestNeighbors` and `knnSearch`).

    The search keeps a buffer of `k` slots ordered best to worst, some of
    which may still be empty. The model relates that buffer to a plain list:
    a buffer in the search's reachable states is `Pad(c, k)` for a list `c`
    sorted by distance, and offering a candidate to it is inserting the
    candidate into `c` after every entry that is not strictly farther, then
    keeping the first `k`. From there the pruned search is shown to equal a
    brute-force pass over the items in visiting order, and that pass to equal
    the first `k` entries of all items sorted by distance. */
module KNearest {
  import opened Wrappers
  import opened Metrics
  import opened KdTree
  import opened Nearest

  /** `curBests`: `k` slots, `None` for a nil slot. */
  type Buffer = seq<Option<Neigh>>

  // ---------------------------------------------------------------------
  // The buffer operations as the source writes them
  // ---------------------------------------------------------------------

  /** `insertAndTrim`: put `n` at index `at`, shift what was at `at` and after
      one slot to the right, and drop what falls off the end. */
  function InsertAndTrim(n: Option<Neigh>, at: nat, s: Buffer): (r: Buffer)
    requires at <= |s|
    ensures |r| == |s|
    ensures forall i | 0 <= i < at :: r[i] == s[i]
    ensures at < |s| ==> r[at] == n
    ensures forall i | at < i < |s| :: r[i] == s[i - 1]
  {
    (s[..at] + [n] + s[at..])[..|s|]
  }

  /** The insertion loop of `knnSearch` from slot `i` on: the candidate takes
      the first nil slot, or is inserted before the first entry that is
      strictly farther; when neither exists it is dropped. */
  function OfferFrom(b: Buffer, n: Neigh, i: nat): (r: Buffer)
    requires i <= |b|
    ensures |r| == |b|
    decreases |b| - i
  {
    if i == |b| then b
    else if b[i].None? then b[i := Some(n)]
    else if n.dist < b[i].value.dist then InsertAndTrim(Some(n), i, b)
    else OfferFrom(b, n, i + 1)
  }

  function Offer(b: Buffer, n: Neigh): (r: Buffer)
    ensures |r| == |b|
  {
    OfferFrom(b, n, 0)
  }

  /** Whether `knnSearch` goes on into the far subtree once the node has
      been offered and the buffer is `b2`: while the last slot is nil, or
      while the single-axis distance to the splitting plane is strictly below
      the distance of the worst entry. */
  predicate GoesOn(t: Tree, q: seq<real>, b2: Buffer, dist: DistanceMetric)
    requires t.Node? && t.axis < |q| && |b2| >= 1
  {
    var worstBest := b2[|b2| - 1];
    worstBest.None? || AxisDist(dist, q[t.axis], Coord(t.data, t.axis)) < worstBest.value.dist
  }

  /** `knnSearch`: the near subtree (`Near`), then the node, then the far
      subtree when `GoesOn`. The last slot is read at every node, so a
      non-empty tree needs at least one slot. */
  function KnnSearch(t: Tree, q: seq<real>, b: Buffer, dist: DistanceMetric): (r: Buffer)
    requires Valid(t, |q|)
    requires t == Nil || |b| >= 1
    ensures |r| == |b|
    decreases t
  {
    if t == Nil then b
    else
      var b2 := Offer(KnnSearch(Near(t, q), q, b, dist), Candidate(t.data, q, dist));
      if GoesOn(t, q, b2, dist) then KnnSearch(Far(t, q), q, b2, dist) else b2
  }

  /** The items of the non-nil slots, in slot order: the result loop of
      `NearestNeighbors`. */
  function Found(b: Buffer): seq<Item> {
    if |b| == 0 then []
    else (if b[0].Some? then [b[0].value.item] else []) + Found(b[1..])
  }

  // ---------------------------------------------------------------------
  // The list view of a buffer
  // ---------------------------------------------------------------------

  predicate SortedByDist(c: seq<Neigh>) {
    forall i, j | 0 <= i < j < |c| :: c[i].dist <= c[j].dist
  }

  /** The buffer holding `c` in its first slots and nil after them. */
  function Pad(c: seq<Neigh>, k: nat): (b: Buffer)
    requires |c| <= k
    ensures |b| == k
  {
    seq(k, i requires 0 <= i < k => if i < |c| then Some(c[i]) else None)
  }

  /** The first `k` entries (all of them when there are fewer). */
  function Take(c: seq<Neigh>, k: nat): (r: seq<Neigh>)
    ensures |r| == Min(|c|, k)
    ensures r == c[..|r|]
  {
    if |c| <= k then c else c[..k]
  }

  /** Where a candidate at distance `d` goes: the first index from `i` on
      whose entry is strictly farther, or the end. */
  function InsertPos(c: seq<Neigh>, d: real, i: nat): (p: nat)
    requires i <= |c|
    ensures i <= p <= |c|
    ensures forall j | i <= j < p :: c[j].dist <= d
    ensures p < |c| ==> d < c[p].dist
    decreases |c| - i
  {
    if i == |c| || d < c[i].dist then i else InsertPos(c, d, i + 1)
  }

  /** `c` with `n` at index `p`: the entries before `p` stay, those from `p`
      on move one index up. */
  function InsertAt(c: seq<Neigh>, n: Neigh, p: nat): (r: seq<Neigh>)
    requires p <= |c|
    ensures |r| == |c| + 1
    ensures forall j | 0 <= j < p :: r[j] == c[j]
    ensures r[p] == n
    ensures forall j | p < j <= |c| :: r[j] == c[j - 1]
  {
    c[..p] + [n] + c[p..]
  }

  /** `c` with `n` inserted after every entry that is not strictly farther. */
  function Insert(c: seq<Neigh>, n: Neigh): (r: seq<Neigh>)
    ensures |r| == |c| + 1
    ensures multiset(r) == multiset(c) + multiset{n}
  {
    var p := InsertPos(c, n.dist, 0);
    assert c == c[..p] + c[p..];
    InsertAt(c, n, p)
  }

  /** Insertion keeps a list sorted and keeps its entries exact. */
  lemma InsertKeepsSorted(c: seq<Neigh>, n: Neigh, q: seq<real>, dist: DistanceMetric)
    ensures SortedByDist(c) ==> SortedByDist(Insert(c, n))
    ensures AllExact(c, q, dist) && Exact(n, q, dist) ==> AllExact(Insert(c, n), q, dist)
  {
    var p := InsertPos(c, n.dist, 0);
    var r := Insert(c, n);
    if SortedByDist(c) {
      forall i, j | 0 <= i < j < |r| ensures r[i].dist <= r[j].dist {
        if j < p {
        } else if j == p {
        } else if i < p {
          assert c[i].dist <= c[j - 1].dist;
        } else if i == p {
          assert n.dist < c[p].dist;
          assert c[p].dist <= c[j - 1].dist;
        } else {
          assert c[i - 1].dist <= c[j - 1].dist;
        }
      }
    }
  }

  /** A prefix of a sorted list of exact entries is one too. */
  lemma TakeKeepsSorted(c: seq<Neigh>, k: nat, q: seq<real>, dist: DistanceMetric)
    ensures SortedByDist(c) ==> SortedByDist(Take(c, k))
    ensures AllExact(c, q, dist) ==> AllExact(Take(c, k), q, dist)
  {
  }

  /** Candidate `n` for item `x`: the item at its distance from the query. */
  function Candidate(x: Item, q: seq<real>, dist: DistanceMetric): (n: Neigh)
    ensures n.item == x && Exact(n, q, dist)
  {
    Neigh(x, dist(x.loc, q))
  }

  /** Brute force: offer every item of `s`, in order, to the buffer. */
  function OfferAll(s: seq<Item>, q: seq<real>, b: Buffer, dist: DistanceMetric): (r: Buffer)
    ensures |r| == |b|
    decreases |s|
  {
    if |s| == 0 then b else OfferAll(s[1..], q, Offer(b, Candidate(s[0], q, dist)), dist)
  }

  /** Insertion sort by distance of the items of `s`, into the sorted `c`. */
  function InsertAll(s: seq<Item>, q: seq<real>, c: seq<Neigh>, dist: DistanceMetric): (r: seq<Neigh>)
    ensures |r| == |c| + |s|
    decreases |s|
  {
    if |s| == 0 then c else InsertAll(s[1..], q, Insert(c, Candidate(s[0], q, dist)), dist)
  }

  // ---------------------------------------------------------------------
  // Offering to a padded buffer is inserting into the list
  // ---------------------------------------------------------------------

  lemma PadTake(c: seq<Neigh>, k: nat)
    requires |c| <= k
    ensures Take(c, k) == c
  {
  }

  /** The insertion loop on `Pad(c, k)`, from any slot `i` up to the end of
      `c`, inserts the candidate where `InsertPos` says and keeps `k`
      entries. */
  lemma {:induction false} OfferFromPadded(c: seq<Neigh>, n: Neigh, k: nat, i: nat)
    requires |c| <= k && i <= |c|
    ensures OfferFrom(Pad(c, k), n, i) == Pad(Take(InsertAt(c, n, InsertPos(c, n.dist, i)), k), k)
    decreases |c| - i
  {
    var b := Pad(c, k);
    var p := InsertPos(c, n.dist, i);
    var ins := InsertAt(c, n, p);
    if i == k {
      assert p == |c|;
      assert Take(ins, k) == c;
    } else if i == |c| {
      assert p == i;
      assert Take(ins, k) == c + [n];
      assert OfferFrom(b, n, i) == b[i := Some(n)];
    } else if n.dist < c[i].dist {
      assert p == i;
      assert OfferFrom(b, n, i) == InsertAndTrim(Some(n), i, b);
      InsertedPadded(c, n, k, i);
    } else {
      assert OfferFrom(b, n, i) == OfferFrom(b, n, i + 1);
      OfferFromPadded(c, n, k, i + 1);
    }
  }

  /** `insertAndTrim` at index `i` of `Pad(c, k)`. */
  lemma InsertedPadded(c: seq<Neigh>, n: Neigh, k: nat, i: nat)
    requires |c| <= k && i < |c|
    ensures InsertAndTrim(Some(n), i, Pad(c, k)) == Pad(Take(InsertAt(c, n, i), k), k)
  {
    var lhs := InsertAndTrim(Some(n), i, Pad(c, k));
    var ins := InsertAt(c, n, i);
    var rhs := Pad(Take(ins, k), k);
    forall j | 0 <= j < k ensures lhs[j] == rhs[j] {
      if j > |c| {
        assert lhs[j] == None;
      }
    }
  }

  /** Offering to `Pad(c, k)` is `Insert` followed by `Take`. */
  lemma OfferPadded(c: seq<Neigh>, n: Neigh, k: nat)
    requires |c| <= k
    ensures Offer(Pad(c, k), n) == Pad(Take(Insert(c, n), k), k)
  {
    OfferFromPadded(c, n, k, 0);
  }

  /** A candidate no closer than the worst entry of a full buffer is dropped. */
  lemma OfferDropped(c: seq<Neigh>, n: Neigh, k: nat)
    requires |c| == k >= 1 && SortedByDist(c)
    requires c[k - 1].dist <= n.dist
    ensures Offer(Pad(c, k), n) == Pad(c, k)
  {
    OfferPadded(c, n, k);
    var p := InsertPos(c, n.dist, 0);
    assert p == |c|;
    assert Take(Insert(c, n), k) == c;
  }

  /** The insertion point in a truncated list is the one in the full list,
      capped at the truncation length. */
  lemma InsertPosTruncated(c: seq<Neigh>, d: real, k: nat)
    requires |c| > k
    ensures InsertPos(c[..k], d, 0) == Min(InsertPos(c, d, 0), k)
  {
    var p, p' := InsertPos(c, d, 0), InsertPos(c[..k], d, 0);
    if p' < k {
      assert d < c[p'].dist;
      assert p <= p';
    } else {
      assert forall j | 0 <= j < k :: c[j].dist <= d;
    }
  }

  /** Inserting into the first `k` entries or into the whole list agrees on
      the first `k` entries of the result. */
  lemma InsertTruncatedPrefix(c: seq<Neigh>, n: Neigh, k: nat)
    requires |c| > k
    ensures Insert(c[..k], n)[..k] == Insert(c, n)[..k]
  {
    var p, p' := InsertPos(c, n.dist, 0), InsertPos(c[..k], n.dist, 0);
    InsertPosTruncated(c, n.dist, k);
    var a, b := InsertAt(c[..k], n, p'), InsertAt(c, n, p);
    assert Insert(c[..k], n) == a && Insert(c, n) == b;
    forall j | 0 <= j < k ensures a[j] == b[j] {
      if j < p' {
        assert a[j] == c[j] && b[j] == c[j];
      } else if j == p' {
        assert a[j] == n && b[j] == n;
      } else {
        assert a[j] == c[j - 1] && b[j] == c[j - 1];
      }
    }
  }

  /** Truncating before an insertion changes nothing among the first `k`
      entries: the search may forget entries beyond the `k`-th. */
  lemma TakeInsert(c: seq<Neigh>, n: Neigh, k: nat)
    ensures Take(Insert(Take(c, k), n), k) == Take(Insert(c, n), k)
  {
    if |c| > k {
      assert Take(c, k) == c[..k];
      InsertTruncatedPrefix(c, n, k);
    }
  }

  lemma {:induction false} OfferAllAppend(a: seq<Item>, s: seq<Item>, q: seq<real>, b: Buffer, dist: DistanceMetric)
    ensures OfferAll(a + s, q, b, dist) == OfferAll(s, q, OfferAll(a, q, b, dist), dist)
    decreases |a|
  {
    if |a| == 0 {
      assert a + s == s;
    } else {
      assert (a + s)[1..] == a[1..] + s;
      OfferAllAppend(a[1..], s, q, Offer(b, Candidate(a[0], q, dist)), dist);
    }
  }

  /** The brute-force pass over `s` from a buffer holding the first `k` of
      `c` holds the first `k` of `c` with all of `s` inserted. */
  lemma {:induction false} OfferAllPadded(s: seq<Item>, q: seq<real>, c: seq<Neigh>, k: nat, dist: DistanceMetric)
    ensures OfferAll(s, q, Pad(Take(c, k), k), dist) == Pad(Take(InsertAll(s, q, c, dist), k), k)
    decreases |s|
  {
    if |s| > 0 {
      var n := Candidate(s[0], q, dist);
      OfferPadded(Take(c, k), n, k);
      TakeInsert(c, n, k);
      OfferAllPadded(s[1..], q, Insert(c, n), k, dist);
    }
  }

  /** Every entry of the list is an exact candidate. */
  predicate AllExact(c: seq<Neigh>, q: seq<real>, dist: DistanceMetric) {
    forall i | 0 <= i < |c| :: Exact(c[i], q, dist)
  }

  /** The items of a list, in order. */
  function Items(c: seq<Neigh>): seq<Item> {
    seq(|c|, i requires 0 <= i < |c| => c[i].item)
  }

  lemma ItemsInsertAt(c: seq<Neigh>, n: Neigh, p: nat)
    requires p <= |c|
    ensures Items(InsertAt(c, n, p)) == Items(c)[..p] + [n.item] + Items(c)[p..]
  {
  }

  lemma ItemsInsert(c: seq<Neigh>, n: Neigh)
    ensures multiset(Items(Insert(c, n))) == multiset(Items(c)) + multiset{n.item}
  {
    var p := InsertPos(c, n.dist, 0);
    var ic := Items(c);
    ItemsInsertAt(c, n, p);
    assert ic == ic[..p] + ic[p..];
  }

  /** Insertion keeps a sorted list of exact candidates sorted and exact. */
  lemma {:induction false} InsertAllSorted(s: seq<Item>, q: seq<real>, c: seq<Neigh>, dist: DistanceMetric)
    requires SortedByDist(c) && AllExact(c, q, dist)
    ensures SortedByDist(InsertAll(s, q, c, dist))
    ensures AllExact(InsertAll(s, q, c, dist), q, dist)
    decreases |s|
  {
    if |s| > 0 {
      var n := Candidate(s[0], q, dist);
      assert InsertAll(s, q, c, dist) == InsertAll(s[1..], q, Insert(c, n), dist);
      InsertKeepsSorted(c, n, q, dist);
      InsertAllSorted(s[1..], q, Insert(c, n), dist);
    }
  }

  /** One step of `InsertAllItems`, given the items after the rest. */
  lemma InsertAllItemsStep(s: seq<Item>, q: seq<real>, c: seq<Neigh>, c': seq<Neigh>, dist: DistanceMetric)
    requires |s| > 0 && c' == Insert(c, Candidate(s[0], q, dist))
    requires multiset(Items(InsertAll(s[1..], q, c', dist))) == multiset(Items(c')) + multiset(s[1..])
    ensures multiset(Items(InsertAll(s, q, c, dist))) == multiset(Items(c)) + multiset(s)
  {
    assert InsertAll(s, q, c, dist) == InsertAll(s[1..], q, c', dist);
    assert multiset(Items(c')) == multiset(Items(c)) + multiset{s[0]} by {
      ItemsInsert(c, Candidate(s[0], q, dist));
    }
    assert multiset(s) == multiset{s[0]} + multiset(s[1..]) by {
      assert s == [s[0]] + s[1..];
    }
  }

  /** Insertion adds exactly the items offered. */
  lemma {:induction false} InsertAllItems(s: seq<Item>, q: seq<real>, c: seq<Neigh>, dist: DistanceMetric)
    ensures multiset(Items(InsertAll(s, q, c, dist))) == multiset(Items(c)) + multiset(s)
    decreases |s|
  {
    if |s| > 0 {
      var c' := Insert(c, Candidate(s[0], q, dist));
      InsertAllItems(s[1..], q, c', dist);
      InsertAllItemsStep(s, q, c, c', dist);
    }
  }

  /** Insertion sort is a sorting: the result is sorted, consists of exact
      candidates, and holds the items of `c` and of `s`. */
  lemma InsertAllSorts(s: seq<Item>, q: seq<real>, c: seq<Neigh>, dist: DistanceMetric)
    requires SortedByDist(c) && AllExact(c, q, dist)
    ensures SortedByDist(InsertAll(s, q, c, dist))
    ensures AllExact(InsertAll(s, q, c, dist), q, dist)
    ensures multiset(Items(InsertAll(s, q, c, dist))) == multiset(Items(c)) + multiset(s)
  {
    InsertAllSorted(s, q, c, dist);
    InsertAllItems(s, q, c, dist);
  }

  // ---------------------------------------------------------------------
  // The pruned search is the brute-force pass
  // ---------------------------------------------------------------------

  /** A full sorted buffer keeps its contents while the items offered are no
      closer than its worst entry. */
  lemma {:induction false} OfferAllDropped(s: seq<Item>, q: seq<real>, c: seq<Neigh>, k: nat, dist: DistanceMetric)
    requires |c| == k >= 1 && SortedByDist(c)
    requires forall y | y in s :: c[k - 1].dist <= dist(y.loc, q)
    ensures OfferAll(s, q, Pad(c, k), dist) == Pad(c, k)
    decreases |s|
  {
    if |s| > 0 {
      assert s[0] in s;
      OfferDropped(c, Candidate(s[0], q, dist), k);
      assert forall y | y in s[1..] :: y in s;
      OfferAllDropped(s[1..], q, c, k, dist);
    }
  }

  /** The brute-force pass in visiting order, split at a node. */
  lemma OfferAllAtNode(t: Tree, q: seq<real>, b: Buffer, dist: DistanceMetric)
    requires t.Node?
    ensures OfferAll(Order(t, q), q, b, dist)
         == OfferAll(Order(Far(t, q), q), q,
                     Offer(OfferAll(Order(Near(t, q), q), q, b, dist), Candidate(t.data, q, dist)), dist)
  {
    var near, far, x := Near(t, q), Far(t, q), t.data;
    assert Order(t, q) == Order(near, q) + [x] + Order(far, q);
    var b1 := OfferAll(Order(near, q), q, b, dist);
    OfferAllAppend(Order(near, q) + [x], Order(far, q), q, b, dist);
    OfferAllAppend(Order(near, q), [x], q, b, dist);
    assert OfferAll([x], q, b1, dist) == Offer(b1, Candidate(x, q, dist)) by {
      assert [x][1..] == [];
    }
  }

  /** The pruning test is sound: when it skips the far subtree of a full
      buffer, no item there would have entered the buffer. */
  lemma PrunedFarK(t: Tree, q: seq<real>, c: seq<Neigh>, k: nat, dist: DistanceMetric)
    requires PruningSound(dist)
    requires t.Node? && Valid(t, |q|)
    requires |c| == k >= 1 && SortedByDist(c)
    requires c[k - 1].dist <= AxisDist(dist, q[t.axis], Coord(t.data, t.axis))
    ensures OfferAll(Order(Far(t, q), q), q, Pad(c, k), dist) == Pad(c, k)
  {
    var far := Far(t, q);
    forall y | y in Order(far, q) ensures c[k - 1].dist <= dist(y.loc, q) {
      assert y in multiset(InOrder(far));
      FarSide(t, q, dist, y);
    }
    OfferAllDropped(Order(far, q), q, c, k, dist);
  }

  /** The list a sorted list becomes after the brute-force pass over `s`. */
  lemma PassKeepsSorted(s: seq<Item>, q: seq<real>, c: seq<Neigh>, k: nat, dist: DistanceMetric)
    requires |c| <= k && SortedByDist(c) && AllExact(c, q, dist)
    ensures OfferAll(s, q, Pad(c, k), dist) == Pad(Take(InsertAll(s, q, c, dist), k), k)
    ensures SortedByDist(Take(InsertAll(s, q, c, dist), k))
    ensures AllExact(Take(InsertAll(s, q, c, dist), k), q, dist)
  {
    PadTake(c, k);
    OfferAllPadded(s, q, c, k, dist);
    InsertAllSorted(s, q, c, dist);
    TakeKeepsSorted(InsertAll(s, q, c, dist), k, q, dist);
  }

  /** One step of `knnSearch` at a node. */
  lemma KnnSearchAtNode(t: Tree, q: seq<real>, b: Buffer, dist: DistanceMetric)
    requires Valid(t, |q|) && t.Node? && |b| >= 1
    ensures var b2 := Offer(KnnSearch(Near(t, q), q, b, dist), Candidate(t.data, q, dist));
      KnnSearch(t, q, b, dist) == if GoesOn(t, q, b2, dist) then KnnSearch(Far(t, q), q, b2, dist) else b2
  {
  }

  /** The list held after the near subtree and the node. */
  function AfterNode(t: Tree, q: seq<real>, c: seq<Neigh>, k: nat, dist: DistanceMetric): (r: seq<Neigh>)
    requires t.Node?
    ensures |r| <= k
  {
    Take(Insert(Take(InsertAll(Order(Near(t, q), q), q, c, dist), k), Candidate(t.data, q, dist)), k)
  }

  lemma AfterNodeSorted(t: Tree, q: seq<real>, c: seq<Neigh>, k: nat, dist: DistanceMetric)
    requires t.Node?
    requires |c| <= k && SortedByDist(c) && AllExact(c, q, dist)
    ensures var c2 := AfterNode(t, q, c, k, dist);
      && |c2| <= k && SortedByDist(c2) && AllExact(c2, q, dist)
      && Offer(OfferAll(Order(Near(t, q), q), q, Pad(c, k), dist), Candidate(t.data, q, dist)) == Pad(c2, k)
  {
    var s := Order(Near(t, q), q);
    PassKeepsSorted(s, q, c, k, dist);
    var c1 := Take(InsertAll(s, q, c, dist), k);
    var n := Candidate(t.data, q, dist);
    OfferPadded(c1, n, k);
    InsertKeepsSorted(c1, n, q, dist);
    TakeKeepsSorted(Insert(c1, n), k, q, dist);
  }

  /** The search skips the far side only with a full buffer whose worst
      entry is no farther than the splitting plane. */
  lemma StopsWhenFull(t: Tree, q: seq<real>, c: seq<Neigh>, k: nat, dist: DistanceMetric)
    requires t.Node? && t.axis < |q| && |c| <= k && k >= 1
    requires !GoesOn(t, q, Pad(c, k), dist)
    ensures |c| == k && c[k - 1].dist <= AxisDist(dist, q[t.axis], Coord(t.data, t.axis))
  {
    assert Pad(c, k)[k - 1] == if k - 1 < |c| then Some(c[k - 1]) else None;
  }

  /** One node of the pruned search, given that it agrees with the pass on
      the near subtree and, when it gets there, on the far subtree. */
  lemma KnnSearchIsPassAtNode(t: Tree, q: seq<real>, c: seq<Neigh>, k: nat, dist: DistanceMetric)
    requires PruningSound(dist)
    requires Valid(t, |q|) && t.Node? && k >= 1
    requires |c| <= k && SortedByDist(c) && AllExact(c, q, dist)
    requires KnnSearch(Near(t, q), q, Pad(c, k), dist) == OfferAll(Order(Near(t, q), q), q, Pad(c, k), dist)
    requires var b2 := Pad(AfterNode(t, q, c, k, dist), k);
      GoesOn(t, q, b2, dist) ==> KnnSearch(Far(t, q), q, b2, dist) == OfferAll(Order(Far(t, q), q), q, b2, dist)
    ensures KnnSearch(t, q, Pad(c, k), dist) == OfferAll(Order(t, q), q, Pad(c, k), dist)
  {
    var b := Pad(c, k);
    var c2 := AfterNode(t, q, c, k, dist);
    var b2 := Pad(c2, k);
    var n := Candidate(t.data, q, dist);
    assert b2 == Offer(KnnSearch(Near(t, q), q, b, dist), n) by {
      AfterNodeSorted(t, q, c, k, dist);
    }
    assert KnnSearch(t, q, b, dist) == if GoesOn(t, q, b2, dist) then KnnSearch(Far(t, q), q, b2, dist) else b2 by {
      KnnSearchAtNode(t, q, b, dist);
    }
    assert OfferAll(Order(t, q), q, b, dist) == OfferAll(Order(Far(t, q), q), q, b2, dist) by {
      OfferAllAtNode(t, q, b, dist);
    }
    if !GoesOn(t, q, b2, dist) {
      assert OfferAll(Order(Far(t, q), q), q, b2, dist) == b2 by {
        AfterNodeSorted(t, q, c, k, dist);
        StopsWhenFull(t, q, c2, k, dist);
        PrunedFarK(t, q, c2, k, dist);
      }
    }
  }

  /** With a pruning-sound metric the pruned search leaves the buffer exactly
      as the brute-force pass over the items in visiting order does. */
  lemma {:induction false} KnnSearchIsPass(t: Tree, q: seq<real>, c: seq<Neigh>, k: nat, dist: DistanceMetric)
    requires PruningSound(dist)
    requires Valid(t, |q|)
    requires t == Nil || k >= 1
    requires |c| <= k && SortedByDist(c) && AllExact(c, q, dist)
    ensures KnnSearch(t, q, Pad(c, k), dist) == OfferAll(Order(t, q), q, Pad(c, k), dist)
  {
    if t.Node? {
      KnnSearchIsPass(Near(t, q), q, c, k, dist);
      AfterNodeSorted(t, q, c, k, dist);
      var c2 := AfterNode(t, q, c, k, dist);
      if GoesOn(t, q, Pad(c2, k), dist) {
        KnnSearchIsPass(Far(t, q), q, c2, k, dist);
      }
      KnnSearchIsPassAtNode(t, q, c, k, dist);
    }
  }

  // ---------------------------------------------------------------------
  // The buffer invariant, for any metric
  // ---------------------------------------------------------------------

  /** The invariant of `curBests`: the non-nil slots form a prefix, ordered
      best to worst, and each holds its item's exact distance. */
  predicate Ranked(b: Buffer, q: seq<real>, dist: DistanceMetric) {
    && (forall i, j | 0 <= i < j < |b| :: b[j].Some? ==> b[i].Some? && b[i].value.dist <= b[j].value.dist)
    && (forall i | 0 <= i < |b| :: b[i].Some? ==> Exact(b[i].value, q, dist))
  }

  /** The entries of the non-nil prefix. */
  function Content(b: Buffer): (c: seq<Neigh>)
    ensures |c| <= |b|
  {
    if |b| == 0 || b[0].None? then [] else [b[0].value] + Content(b[1..])
  }

  lemma {:induction false} ContentOfRanked(b: Buffer, q: seq<real>, dist: DistanceMetric)
    requires Ranked(b, q, dist)
    ensures b == Pad(Content(b), |b|)
    ensures SortedByDist(Content(b)) && AllExact(Content(b), q, dist)
  {
    if |b| > 0 && b[0].Some? {
      ContentOfRanked(b[1..], q, dist);
      var c := Content(b);
      assert c == [b[0].value] + Content(b[1..]);
      forall i | 0 <= i < |b| ensures b[i] == Pad(c, |b|)[i] {
        if i > 0 {
          assert b[i] == b[1..][i - 1];
        }
      }
    } else if |b| > 0 {
      assert forall i | 0 <= i < |b| :: b[i] == Pad([], |b|)[i];
    }
  }

  lemma PadRanked(c: seq<Neigh>, k: nat, q: seq<real>, dist: DistanceMetric)
    requires |c| <= k && SortedByDist(c) && AllExact(c, q, dist)
    ensures Ranked(Pad(c, k), q, dist)
  {
  }

  /** Offering an exact candidate keeps the buffer invariant. */
  lemma OfferKeepsRanked(b: Buffer, n: Neigh, q: seq<real>, dist: DistanceMetric)
    requires Ranked(b, q, dist) && Exact(n, q, dist)
    ensures Ranked(Offer(b, n), q, dist)
  {
    ContentOfRanked(b, q, dist);
    var c := Content(b);
    OfferPadded(c, n, |b|);
    InsertKeepsSorted(c, n, q, dist);
    TakeKeepsSorted(Insert(c, n), |b|, q, dist);
    PadRanked(Take(Insert(c, n), |b|), |b|, q, dist);
  }

  /** The search keeps the buffer invariant whatever the metric. */
  lemma {:induction false} KnnSearchKeepsRanked(t: Tree, q: seq<real>, b: Buffer, dist: DistanceMetric)
    requires Valid(t, |q|) && (t == Nil || |b| >= 1)
    requires Ranked(b, q, dist)
    ensures Ranked(KnnSearch(t, q, b, dist), q, dist)
    decreases t
  {
    if t.Node? {
      KnnSearchKeepsRanked(Near(t, q), q, b, dist);
      var b2 := Offer(KnnSearch(Near(t, q), q, b, dist), Candidate(t.data, q, dist));
      OfferKeepsRanked(KnnSearch(Near(t, q), q, b, dist), Candidate(t.data, q, dist), q, dist);
      if GoesOn(t, q, b2, dist) {
        KnnSearchKeepsRanked(Far(t, q), q, b2, dist);
      }
    }
  }

  /** The items of a buffer with the invariant come nearest first. */
  lemma FoundOfRanked(b: Buffer, q: seq<real>, dist: DistanceMetric)
    requires Ranked(b, q, dist)
    ensures var r := Found(b);
      |r| <= |b| && forall i, j | 0 <= i < j < |r| :: dist(r[i].loc, q) <= dist(r[j].loc, q)
  {
    ContentOfRanked(b, q, dist);
    var c := Content(b);
    FoundPadded(c, |b|);
    forall i, j | 0 <= i < j < |c| ensures dist(Items(c)[i].loc, q) <= dist(Items(c)[j].loc, q) {
      assert Exact(c[i], q, dist) && Exact(c[j], q, dist);
    }
  }

  // ---------------------------------------------------------------------
  // NearestNeighbors
  // ---------------------------------------------------------------------

  lemma {:induction false} FoundPadded(c: seq<Neigh>, k: nat)
    requires |c| <= k
    ensures Found(Pad(c, k)) == Items(c)
    decreases k
  {
    if k > 0 {
      if |c| > 0 {
        assert Pad(c, k)[1..] == Pad(c[1..], k - 1);
        FoundPadded(c[1..], k - 1);
      } else {
        assert Pad(c, k)[1..] == Pad(c, k - 1);
        FoundPadded(c, k - 1);
      }
    }
  }

  lemma ItemsTake(c: seq<Neigh>, k: nat)
    ensures Items(Take(c, k)) == Items(c)[..Min(|c|, k)]
  {
    var m := Min(|c|, k);
    forall j | 0 <= j < m ensures Items(Take(c, k))[j] == Items(c)[..m][j] {
    }
  }

  /** No item left out is strictly closer than an item kept. */
  ghost predicate TopK(r: seq<Item>, items: seq<Item>, q: seq<real>, dist: DistanceMetric) {
    && multiset(r) <= multiset(items)
    && (forall i, j | 0 <= i < j < |r| :: dist(r[i].loc, q) <= dist(r[j].loc, q))
    && (forall y, x | y in multiset(items) - multiset(r) && x in r :: dist(x.loc, q) <= dist(y.loc, q))
  }

  /** In a sorted list of exact candidates, no item after position `m` is
      closer than an item before it. */
  lemma SuffixNoCloser(c: seq<Neigh>, m: nat, q: seq<real>, dist: DistanceMetric)
    requires m <= |c| && SortedByDist(c) && AllExact(c, q, dist)
    ensures forall y, x | y in Items(c)[m..] && x in Items(c)[..m] :: dist(x.loc, q) <= dist(y.loc, q)
  {
    var all := Items(c);
    forall y, x | y in all[m..] && x in all[..m] ensures dist(x.loc, q) <= dist(y.loc, q) {
      var j :| 0 <= j < |all| - m && all[m..][j] == y;
      var i :| 0 <= i < m && all[..m][i] == x;
      OrderedPair(c, i, m + j, q, dist);
    }
  }

  /** In a sorted list of exact candidates an earlier item is no farther
      than a later one. */
  lemma OrderedPair(c: seq<Neigh>, i: nat, j: nat, q: seq<real>, dist: DistanceMetric)
    requires i < j < |c| && SortedByDist(c) && AllExact(c, q, dist)
    ensures dist(Items(c)[i].loc, q) <= dist(Items(c)[j].loc, q)
  {
    assert Exact(c[i], q, dist) && Exact(c[j], q, dist);
  }

  /** The first `m` items of a sorted list of exact candidates are in order
      of distance. */
  lemma PrefixSorted(c: seq<Neigh>, m: nat, q: seq<real>, dist: DistanceMetric)
    requires m <= |c| && SortedByDist(c) && AllExact(c, q, dist)
    ensures var r := Items(c)[..m];
      forall i, j | 0 <= i < j < |r| :: dist(r[i].loc, q) <= dist(r[j].loc, q)
  {
    forall i, j | 0 <= i < j < m ensures dist(c[i].item.loc, q) <= dist(c[j].item.loc, q) {
      assert Exact(c[i], q, dist) && Exact(c[j], q, dist);
    }
  }

  /** What is left of a list after its first `m` entries is its tail. */
  lemma PrefixRest(all: seq<Item>, m: nat)
    requires m <= |all|
    ensures multiset(all[..m]) <= multiset(all)
    ensures multiset(all) - multiset(all[..m]) == multiset(all[m..])
  {
    assert all == all[..m] + all[m..];
  }

  /** No item left out of the first `m` is closer than one kept. */
  lemma PrefixExcluded(c: seq<Neigh>, m: nat, q: seq<real>, dist: DistanceMetric)
    requires m <= |c| && SortedByDist(c) && AllExact(c, q, dist)
    ensures var all := Items(c); var r := all[..m];
      forall y, x | y in multiset(all) - multiset(r) && x in r :: dist(x.loc, q) <= dist(y.loc, q)
  {
    var all := Items(c);
    PrefixRest(all, m);
    SuffixNoCloser(c, m, q, dist);
    forall y, x | y in multiset(all) - multiset(all[..m]) && x in all[..m]
      ensures dist(x.loc, q) <= dist(y.loc, q)
    {
      assert y in multiset(all[m..]);
    }
  }

  /** The first `m` items of a sorted list of exact candidates are a top-`m`
      of its items. */
  lemma PrefixIsTopK(c: seq<Neigh>, m: nat, q: seq<real>, dist: DistanceMetric)
    requires m <= |c| && SortedByDist(c) && AllExact(c, q, dist)
    ensures TopK(Items(c)[..m], Items(c), q, dist)
  {
    PrefixRest(Items(c), m);
    PrefixSorted(c, m, q, dist);
    PrefixExcluded(c, m, q, dist);
  }

  /** The brute-force pass over `s` from `k` nil slots keeps a top-`k` of
      `s`, with `min(k, |s|)` items. */
  lemma PassTopK(s: seq<Item>, q: seq<real>, k: nat, dist: DistanceMetric)
    ensures var r := Found(OfferAll(s, q, Pad([], k), dist));
      |r| == Min(k, |s|) && TopK(r, s, q, dist)
  {
    PassKeepsSorted(s, q, [], k, dist);
    var all := InsertAll(s, q, [], dist);
    InsertAllSorts(s, q, [], dist);
    assert Items([]) == [];
    FoundPadded(Take(all, k), k);
    ItemsTake(all, k);
    PrefixIsTopK(all, Min(|all|, k), q, dist);
  }

  /** Started from `k` nil slots, the search of a pruning-sound metric ends
      with `min(k, n)` of the tree's `n` items, nearest first, none of the
      items left out strictly closer than one kept. */
  lemma KnnSearchTopK(t: Tree, q: seq<real>, k: nat, dist: DistanceMetric)
    requires Valid(t, |q|)
    requires t == Nil || k >= 1
    ensures PruningSound(dist) ==>
      var r := Found(KnnSearch(t, q, Pad([], k), dist));
      |r| == Min(k, |InOrder(t)|) && TopK(r, InOrder(t), q, dist)
  {
    if PruningSound(dist) {
      KnnSearchIsPass(t, q, [], k, dist);
      PassTopK(Order(t, q), q, k, dist);
    }
  }

  /** `NearestNeighbors`: the nearest `min(k, Len())` items, nearest first,
      when the metric is pruning-sound. With no slots the source reads the
      slot before the first, so a non-empty tree needs `k >= 1` (and, as for
      `NearestNeighbor`, a query of the tree's dimensionality). */
  function NearestNeighbors(t: KDTree, dist: DistanceMetric, k: nat, point: seq<real>): (r: seq<Item>)
    requires t.Wf()
    requires t.root != Nil ==> |point| == t.dimensions && k >= 1
    ensures |r| <= k
    ensures forall i, j | 0 <= i < j < |r| :: dist(r[i].loc, point) <= dist(r[j].loc, point)
    ensures PruningSound(dist) ==> |r| == Min(k, t.Len()) && TopK(r, t.items, point, dist)
  {
    KnnSearchTopK(t.root, point, k, dist);
    PadRanked([], k, point, dist);
    KnnSearchKeepsRanked(t.root, point, Pad([], k), dist);
    FoundOfRanked(KnnSearch(t.root, point, Pad([], k), dist), point, dist);
    Found(KnnSearch(t.root, point, Pad([], k), dist))
  }

  /** The three metrics of data/tree.go that the tree can use directly give
      a true top-`k`. */
  lemma NearestNeighborsSqDist(t: KDTree, k: nat, point: seq<real>)
    requires t.Wf()
    requires t.root != Nil ==> |point| == t.dimensions && k >= 1
    ensures var r := NearestNeighbors(t, SqDist, k, point);
      |r| == Min(k, t.Len()) && TopK(r, t.items, point, SqDist)
  {
    SqDistPruningSound();
  }

  lemma NearestNeighborsAbsDist(t: KDTree, k: nat, point: seq<real>)
    requires t.Wf()
    requires t.root != Nil ==> |point| == t.dimensions && k >= 1
    ensures var r := NearestNeighbors(t, AbsDist, k, point);
      |r| == Min(k, t.Len()) && TopK(r, t.items, point, AbsDist)
  {
    AbsDistPruningSound();
  }

  lemma NearestNeighborsMaxDist(t: KDTree, k: nat, point: seq<real>)
    requires t.Wf()
    requires t.root != Nil ==> |point| == t.dimensions && k >= 1
    ensures var r := NearestNeighbors(t, MaxDist, k, point);
      |r| == Min(k, t.Len()) && TopK(r, t.items, point, MaxDist)
  {
    MaxDistPruningSound();
  }
}
