/** The list combinators of functional/floats.go over `float64` slices,
    modelled over `real`: `MapF`, `ReduceF`, `FilterF`, the function builders
    meant for them, and the predicate combinators `Any` and `All`.

    Each combinator is a method that follows the source's loop, proved equal
    to a recursive reference definition; the lemmas relate the combinators
    to one another. */
module Functional {

  import opened Arith

  type OneToOne = real -> real
  type TwoToOne = (real, real) -> real
  type ToBool = real -> bool

  // ---------------------------------------------------------------------
  // MapF
  // ---------------------------------------------------------------------

  /** `fns` applied to `n` left to right: `fns[0]` first. */
  function Chain(fns: seq<OneToOne>, n: real): real {
    if |fns| == 0 then n else fns[|fns| - 1](Chain(fns[..|fns| - 1], n))
  }

  /** Reference definition of `MapF`. */
  function Map(s: seq<real>, fns: seq<OneToOne>): seq<real> {
    seq(|s|, i requires 0 <= i < |s| => Chain(fns, s[i]))
  }

  /** `MapF`: element `i` of the output is `slice[i]` passed through every
      function in turn; with no functions the output is a copy. */
  method MapF(slice: seq<real>, fns: seq<OneToOne>) returns (out: seq<real>)
    ensures |out| == |slice|
    ensures forall i | 0 <= i < |slice| :: out[i] == Chain(fns, slice[i])
    ensures |fns| == 0 ==> out == slice
  {
    out := [];
    for i := 0 to |slice|
      invariant |out| == i
      invariant forall j | 0 <= j < i :: out[j] == Chain(fns, slice[j])
    {
      var n := slice[i];
      for j := 0 to |fns|
        invariant n == Chain(fns[..j], slice[i])
      {
        assert fns[..j + 1][..j] == fns[..j];
        n := fns[j](n);
      }
      assert fns[..|fns|] == fns;
      out := out + [n];
    }
  }

  lemma {:induction false} ChainAppend(f: seq<OneToOne>, g: seq<OneToOne>, n: real)
    ensures Chain(f + g, n) == Chain(g, Chain(f, n))
    decreases |g|
  {
    if |g| == 0 {
      assert f + g == f;
    } else {
      assert (f + g)[..|f + g| - 1] == f + g[..|g| - 1];
      ChainAppend(f, g[..|g| - 1], n);
    }
  }

  /** Mapping twice is mapping once with the concatenated functions. */
  lemma MapFusion(s: seq<real>, f: seq<OneToOne>, g: seq<OneToOne>)
    ensures Map(Map(s, f), g) == Map(s, f + g)
  {
    forall i | 0 <= i < |s| ensures Map(Map(s, f), g)[i] == Map(s, f + g)[i] {
      ChainAppend(f, g, s[i]);
    }
  }

  // ---------------------------------------------------------------------
  // Function builders for MapF
  // ---------------------------------------------------------------------

  /** `Add(a)`. */
  function Add(a: real): OneToOne {
    b => a + b
  }

  /** `Mul(a)`. */
  function Mul(a: real): OneToOne {
    b => a * b
  }

  /** `Truth(p)`: the indicator of `p`. */
  function Truth(p: ToBool): OneToOne {
    n => if p(n) then 1.0 else 0.0
  }

  // ---------------------------------------------------------------------
  // ReduceF
  // ---------------------------------------------------------------------

  /** Reference definition of `ReduceF`: 0 for an empty slice, otherwise
      the left fold of `f` over the rest, seeded with the first element. */
  function Reduce(s: seq<real>, f: TwoToOne): real {
    if |s| == 0 then 0.0
    else if |s| == 1 then s[0]
    else f(Reduce(s[..|s| - 1], f), s[|s| - 1])
  }

  /** `ReduceF`. */
  method ReduceF(slice: seq<real>, f: TwoToOne) returns (out: real)
    ensures |slice| == 0 ==> out == 0.0
    ensures |slice| == 1 ==> out == slice[0]
    ensures out == Reduce(slice, f)
  {
    out := 0.0;
    if |slice| >= 1 {
      out := slice[0];
    }
    var i := 1;
    while i < |slice|
      invariant |slice| == 0 ==> out == 0.0
      invariant |slice| >= 1 ==> 1 <= i <= |slice| && out == Reduce(slice[..i], f)
    {
      assert slice[..i + 1][..i] == slice[..i];
      out := f(out, slice[i]);
      i := i + 1;
    }
    if |slice| > 0 {
      assert slice[..|slice|] == slice;
    }
  }

  /** The left fold of `f` over `s` from `acc`. */
  function FoldLeft(f: TwoToOne, acc: real, s: seq<real>): real
    decreases |s|
  {
    if |s| == 0 then acc else FoldLeft(f, f(acc, s[0]), s[1..])
  }

  lemma {:induction false} FoldLeftSnoc(f: TwoToOne, acc: real, s: seq<real>, x: real)
    ensures FoldLeft(f, acc, s + [x]) == f(FoldLeft(f, acc, s), x)
    decreases |s|
  {
    if |s| == 0 {
      assert (s + [x])[1..] == [];
    } else {
      assert (s + [x])[1..] == s[1..] + [x];
      FoldLeftSnoc(f, f(acc, s[0]), s[1..], x);
    }
  }

  /** Appending an element applies `f` once more, and on a non-empty slice
      `ReduceF` is the front-to-back fold seeded with the first element. */
  lemma {:induction false} ReduceIsFoldLeft(s: seq<real>, f: TwoToOne)
    requires |s| >= 1
    ensures Reduce(s, f) == FoldLeft(f, s[0], s[1..])
    decreases |s|
  {
    if |s| > 1 {
      var init := s[..|s| - 1];
      ReduceIsFoldLeft(init, f);
      assert s[1..] == init[1..] + [s[|s| - 1]];
      FoldLeftSnoc(f, s[0], init[1..], s[|s| - 1]);
    }
  }

  // ---------------------------------------------------------------------
  // Reducers
  // ---------------------------------------------------------------------

  /** `Sum`. */
  function Sum(accumulator: real, n: real): real {
    accumulator + n
  }

  /** `Prod`. */
  function Prod(accumulator: real, n: real): real {
    accumulator * n
  }

  /** `Max`: `math.Max` on reals. */
  function Max(max: real, n: real): real {
    MathMax(max, n)
  }

  /** `Min`: `math.Min` on reals. */
  function Min(min: real, n: real): real {
    if n < min then n else min
  }

  /** The sum of the elements, front to back. */
  function Total(s: seq<real>): real
    decreases |s|
  {
    if |s| == 0 then 0.0 else Total(s[..|s| - 1]) + s[|s| - 1]
  }

  /** The product of the elements (1 for none). */
  function Product(s: seq<real>): real
    decreases |s|
  {
    if |s| == 0 then 1.0 else Product(s[..|s| - 1]) * s[|s| - 1]
  }

  /** Reducing with `Sum` adds the elements up. */
  lemma {:induction false} ReduceSum(s: seq<real>)
    ensures Reduce(s, Sum) == Total(s)
    decreases |s|
  {
    if |s| > 1 {
      ReduceSum(s[..|s| - 1]);
    } else if |s| == 1 {
      assert s[..0] == [];
    }
  }

  /** Reducing a non-empty slice with `Prod` multiplies the elements. */
  lemma {:induction false} ReduceProd(s: seq<real>)
    requires |s| >= 1
    ensures Reduce(s, Prod) == Product(s)
    decreases |s|
  {
    if |s| > 1 {
      ReduceProd(s[..|s| - 1]);
    } else {
      assert s[..0] == [];
    }
  }

  /** Reducing a non-empty slice with `Max` gives its largest element. */
  lemma {:induction false} ReduceMax(s: seq<real>)
    requires |s| >= 1
    ensures Reduce(s, Max) in s
    ensures forall x | x in s :: x <= Reduce(s, Max)
    decreases |s|
  {
    if |s| > 1 {
      var init := s[..|s| - 1];
      ReduceMax(init);
      assert s == init + [s[|s| - 1]];
    }
  }

  /** Reducing a non-empty slice with `Min` gives its smallest element. */
  lemma {:induction false} ReduceMin(s: seq<real>)
    requires |s| >= 1
    ensures Reduce(s, Min) in s
    ensures forall x | x in s :: Reduce(s, Min) <= x
    decreases |s|
  {
    if |s| > 1 {
      var init := s[..|s| - 1];
      ReduceMin(init);
      assert s == init + [s[|s| - 1]];
    }
  }

  /** Mapping `Add(a)` before summing adds `a` once per element. */
  lemma {:induction false} SumAfterAdd(s: seq<real>, a: real)
    ensures Total(Map(s, [Add(a)])) == Total(s) + (|s| as real) * a
    decreases |s|
  {
    if |s| > 0 {
      var init := s[..|s| - 1];
      SumAfterAdd(init, a);
      assert Map(s, [Add(a)])[..|s| - 1] == Map(init, [Add(a)]);
      assert Chain([Add(a)], s[|s| - 1]) == a + s[|s| - 1] by {
        assert [Add(a)][..0] == [];
      }
    }
  }

  /** Mapping `Mul(a)` before summing scales the sum by `a`. */
  lemma {:induction false} SumAfterMul(s: seq<real>, a: real)
    ensures Total(Map(s, [Mul(a)])) == a * Total(s)
    decreases |s|
  {
    if |s| > 0 {
      var init := s[..|s| - 1];
      SumAfterMul(init, a);
      assert Map(s, [Mul(a)])[..|s| - 1] == Map(init, [Mul(a)]);
      assert Chain([Mul(a)], s[|s| - 1]) == a * s[|s| - 1] by {
        assert [Mul(a)][..0] == [];
      }
    }
  }

  // ---------------------------------------------------------------------
  // FilterF
  // ---------------------------------------------------------------------

  /** Reference definition of `FilterF`. */
  function Filter(s: seq<real>, f: ToBool): seq<real>
    decreases |s|
  {
    if |s| == 0 then []
    else Filter(s[..|s| - 1], f) + (if f(s[|s| - 1]) then [s[|s| - 1]] else [])
  }

  /** `FilterF`. */
  method FilterF(slice: seq<real>, f: ToBool) returns (out: seq<real>)
    ensures out == Filter(slice, f)
    ensures forall x :: x in out <==> x in slice && f(x)
    ensures multiset(out) <= multiset(slice)
  {
    out := [];
    for i := 0 to |slice|
      invariant out == Filter(slice[..i], f)
    {
      assert slice[..i + 1][..i] == slice[..i];
      if f(slice[i]) {
        out := out + [slice[i]];
      }
    }
    assert slice[..|slice|] == slice;
    FilterMembers(slice, f);
    FilterSubMultiset(slice, f);
  }

  lemma {:induction false} FilterMembers(s: seq<real>, f: ToBool)
    ensures forall x :: x in Filter(s, f) <==> x in s && f(x)
    decreases |s|
  {
    if |s| > 0 {
      FilterMembers(s[..|s| - 1], f);
      assert s == s[..|s| - 1] + [s[|s| - 1]];
    }
  }

  lemma {:induction false} FilterSubMultiset(s: seq<real>, f: ToBool)
    ensures multiset(Filter(s, f)) <= multiset(s)
    decreases |s|
  {
    if |s| > 0 {
      FilterSubMultiset(s[..|s| - 1], f);
      assert s == s[..|s| - 1] + [s[|s| - 1]];
    }
  }

  /** Filtering keeps the original order: it distributes over
      concatenation. */
  lemma {:induction false} FilterAppend(a: seq<real>, b: seq<real>, f: ToBool)
    ensures Filter(a + b, f) == Filter(a, f) + Filter(b, f)
    decreases |b|
  {
    if |b| == 0 {
      assert a + b == a;
    } else {
      assert (a + b)[..|a + b| - 1] == a + b[..|b| - 1];
      FilterAppend(a, b[..|b| - 1], f);
    }
  }

  /** Summing the `Truth` indicator of `f` counts the elements `FilterF`
      keeps. */
  lemma {:induction false} TruthCounts(s: seq<real>, f: ToBool)
    ensures Total(Map(s, [Truth(f)])) == |Filter(s, f)| as real
    decreases |s|
  {
    if |s| > 0 {
      var init := s[..|s| - 1];
      TruthCounts(init, f);
      assert Map(s, [Truth(f)])[..|s| - 1] == Map(init, [Truth(f)]);
      assert Chain([Truth(f)], s[|s| - 1]) == (if f(s[|s| - 1]) then 1.0 else 0.0) by {
        assert [Truth(f)][..0] == [];
      }
    }
  }

  // ---------------------------------------------------------------------
  // Predicate builders
  // ---------------------------------------------------------------------

  /** `LessThan(a)`: holds for arguments strictly below `a`. */
  function LessThan(a: real): ToBool {
    b => b < a
  }

  /** `GreaterThan(a)`: holds for arguments strictly above `a`. */
  function GreaterThan(a: real): ToBool {
    b => b > a
  }

  /** `Equal(a)`: holds for `a` only. */
  function Equal(a: real): ToBool {
    b => b == a
  }

  /** Every element is below, equal to or above `a`, and exactly one of the
      three: the three filters split the slice. */
  lemma {:induction false} ComparisonsPartition(s: seq<real>, a: real)
    ensures |Filter(s, LessThan(a))| + |Filter(s, Equal(a))| + |Filter(s, GreaterThan(a))| == |s|
    decreases |s|
  {
    if |s| > 0 {
      ComparisonsPartition(s[..|s| - 1], a);
    }
  }

  /** `Any(ps)` applied to `n`: the source's loop ORs every result into
      `rval`, so it is false when there are no predicates. */
  method AnyOf(ps: seq<ToBool>, n: real) returns (rval: bool)
    ensures rval <==> exists i | 0 <= i < |ps| :: ps[i](n)
  {
    rval := false;
    for i := 0 to |ps|
      invariant rval <==> exists j | 0 <= j < i :: ps[j](n)
    {
      rval := rval || ps[i](n);
    }
  }

  /** `All(ps)` applied to `n`: false at the first predicate that fails,
      true when none does, and so true when there are no predicates. */
  method AllOf(ps: seq<ToBool>, n: real) returns (r: bool)
    ensures r <==> forall i | 0 <= i < |ps| :: ps[i](n)
  {
    for i := 0 to |ps|
      invariant forall j | 0 <= j < i :: ps[j](n)
    {
      if !ps[i](n) {
        return false;
      }
    }
    return true;
  }
}
