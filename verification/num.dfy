/** Integer helpers of the `num` package: `ClampInt` from
    num/interpolateInt.go and `factorial` from num/distributions.go. Go's
    `int` is 32 or 64 bits wide depending on the target; the model assumes a
    64-bit target. The factorial loop is modelled with that wrap-around
    written out, next to the mathematical factorial it is meant to
    compute. */
module Num {

  import opened Arith

  /** `ClampInt`: `min` when `x <= min` (checked first, so it wins even when
      `min > max`), else `max` when `x >= max`, else `x`. */
  function ClampInt(x: int, min: int, max: int): (r: int)
    ensures r == x || r == min || r == max
    ensures min <= max ==> min <= r <= max
    ensures min <= x <= max ==> r == x
  {
    if x <= min then min else if x >= max then max else x
  }

  function Dist(a: int, b: int): nat {
    if a <= b then b - a else a - b
  }

  /** With ordered bounds the clamp is the value of `[min, max]` closest to
      `x`. */
  lemma ClampIsNearest(x: int, min: int, max: int, y: int)
    requires min <= max && min <= y <= max
    ensures Dist(ClampInt(x, min, max), x) <= Dist(y, x)
  {
  }

  /** With inverted bounds nothing is ever returned from between them: the
      `min` test comes first. */
  lemma ClampInvertedBounds(x: int, min: int, max: int)
    requires max < min
    ensures ClampInt(x, min, max) == if x <= min then min else max
  {
  }

  /** Clamping twice is clamping once. */
  lemma ClampIdempotent(x: int, min: int, max: int)
    requires min <= max
    ensures ClampInt(ClampInt(x, min, max), min, max) == ClampInt(x, min, max)
  {
  }

  /** Clamping preserves order. */
  lemma ClampMonotone(x: int, y: int, min: int, max: int)
    requires min <= max && x <= y
    ensures ClampInt(x, min, max) <= ClampInt(y, min, max)
  {
  }

  /** The factorial over unbounded integers: 1 for every `n <= 1`, negative
      `n` included, and `n * (n - 1)!` above. */
  function Factorial(n: int): (f: int)
    ensures f >= 1
    ensures n >= 1 ==> f >= n
    decreases if n < 0 then 0 else n
  {
    if n <= 1 then 1 else n * Factorial(n - 1)
  }

  /** Every `k` in `1..n` divides `n!`. */
  lemma {:induction false} FactorialDivisible(k: int, n: int)
    requires 1 <= k <= n
    ensures Factorial(n) % k == 0
    decreases n
  {
    if n == 1 {
      DivModUnique(1, 1, 0, 1);
    } else {
      var prev := Factorial(n - 1);
      assert Factorial(n) == n * prev;
      if k == n {
        assert n * prev == prev * n;
        DivModUnique(Factorial(n), prev, 0, n);
      } else {
        FactorialDivisible(k, n - 1);
        DivModUnique(0, 0, 0, k);
        ModMulCongruent(prev, 0, n, k);
      }
    }
  }

  /** The factorial never decreases. */
  lemma {:induction false} FactorialMonotone(m: int, n: int)
    requires m <= n
    ensures Factorial(m) <= Factorial(n)
    decreases n - m
  {
    if m < n {
      FactorialMonotone(m, n - 1);
      if n > 1 {
        ProductAtLeast(n, Factorial(n - 1));
      }
    }
  }

  const Two63: int := 0x8000_0000_0000_0000
  const Two64: int := 0x1_0000_0000_0000_0000

  /** The value a Go `int` holds after an arithmetic result `x`: its low 64
      bits read as two's complement. */
  function Wrap64(x: int): (r: int)
    ensures -Two63 <= r < Two63
  {
    var m := x % Two64;
    if m >= Two63 then m - Two64 else m
  }

  /** Wrapping keeps the value modulo 2^64 and leaves in-range values
      alone. */
  lemma WrapCongruent(x: int)
    ensures Wrap64(x) % Two64 == x % Two64
    ensures -Two63 <= x < Two63 ==> Wrap64(x) == x
  {
    var m := x % Two64;
    DivModUnique(m, 0, m, Two64);
    if m >= Two63 {
      ModAddMultiple(m, -1, Two64);
    }
    if 0 <= x < Two63 {
      DivModUnique(x, 0, x, Two64);
    } else if -Two63 <= x < 0 {
      DivModUnique(x, -1, x + Two64, Two64);
    }
  }

  /** Wrapping after every multiplication gives the same result as wrapping
      once at the end. */
  lemma WrapMul(a: int, b: int)
    ensures Wrap64(Wrap64(a) * b) == Wrap64(a * b)
  {
    WrapCongruent(a);
    ModMulCongruent(Wrap64(a), a, b, Two64);
  }

  /** The product of the integers in `(i, n]`. */
  function Falling(i: int, n: int): (p: int)
    decreases n - i
  {
    if n <= i then 1 else n * Falling(i, n - 1)
  }

  lemma {:induction false} FallingStep(i: int, n: int)
    requires i <= n
    ensures Falling(i - 1, n) == Falling(i, n) * i
    decreases n - i
  {
    if i < n {
      FallingStep(i, n - 1);
    }
  }

  lemma {:induction false} FallingFactorial(n: int)
    requires n >= 1
    ensures Falling(1, n) == Factorial(n)
    decreases n
  {
    if n > 1 {
      FallingFactorial(n - 1);
    }
  }

  /** `factorial` as the Go loop computes it: `f` starts at 1 and is
      multiplied by `n`, `n - 1`, ..., 2 in 64-bit arithmetic. The result is
      the true factorial wrapped to 64 bits. */
  method FactorialInt64(n: int) returns (f: int)
    requires -Two63 <= n < Two63
    ensures f == Wrap64(Factorial(n))
    ensures n <= 1 ==> f == 1
  {
    f := 1;
    var i := n;
    while i > 1
      invariant i <= n && (n > 1 ==> i >= 1) && (n <= 1 ==> i == n)
      invariant f == Wrap64(Falling(i, n))
    {
      ghost var p := Falling(i, n);
      FallingStep(i, n);
      WrapMul(p, i);
      assert Wrap64(f * i) == Wrap64(Falling(i - 1, n));
      f := Wrap64(f * i);
      i := i - 1;
    }
    if n > 1 {
      FallingFactorial(n);
    } else {
      WrapCongruent(1);
    }
  }

  /** 20! evaluated one factor at a time. */
  lemma Factorial20()
    ensures Factorial(20) == 2432902008176640000
  {
    assert Factorial(2) == 2;
    assert Factorial(3) == 6;
    assert Factorial(4) == 24;
    assert Factorial(5) == 120;
    assert Factorial(6) == 720;
    assert Factorial(7) == 5040;
    assert Factorial(8) == 40320;
    assert Factorial(9) == 362880;
    assert Factorial(10) == 3628800;
    assert Factorial(11) == 39916800;
    assert Factorial(12) == 479001600;
    assert Factorial(13) == 6227020800;
    assert Factorial(14) == 87178291200;
    assert Factorial(15) == 1307674368000;
    assert Factorial(16) == 20922789888000;
    assert Factorial(17) == 355687428096000;
    assert Factorial(18) == 6402373705728000;
    assert Factorial(19) == 121645100408832000;
    assert Factorial(20) == 2432902008176640000;
  }

  /** Up to 20 the loop computes the exact factorial, so the divisor of
      `Poisson` is at least 1. */
  lemma NoOverflowUpTo20(n: int)
    requires n <= 20
    ensures Wrap64(Factorial(n)) == Factorial(n) >= 1
  {
    FactorialMonotone(n, 20);
    Factorial20();
    WrapCongruent(Factorial(n));
  }

  /** At 21 the product leaves the 64-bit range and the wrapped result is
      negative. */
  lemma Factorial21Overflows()
    ensures Factorial(21) == 51090942171709440000
    ensures Wrap64(Factorial(21)) == -4249290049419214848
  {
    Factorial20();
    assert Factorial(21) == 21 * Factorial(20);
  }
}
