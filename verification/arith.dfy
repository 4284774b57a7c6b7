/** Facts about Euclidean division and squares that the integer helpers
    below rely on. Dafny's `/` and `%` are Euclidean; for a positive
    divisor they agree with Go's on non-negative dividends. The module also
    holds `math.Max`, which the metrics and the reducers share. */
module Arith {

  /** `math.Max` on non-NaN arguments. */
  function MathMax(x: real, y: real): real {
    if x < y then y else x
  }

  /** The only multiple of `len` strictly between `-len` and `len` is 0. */
  lemma MultipleBelow(d: int, len: int)
    requires len >= 1 && -len < d * len < len
    ensures d == 0
  {
  }

  /** Division with remainder is unique. */
  lemma DivModUnique(n: int, q: int, r: int, len: int)
    requires len >= 1 && 0 <= r < len && n == q * len + r
    ensures n / len == q && n % len == r
  {
    var q', r' := n / len, n % len;
    assert (q - q') * len == r' - r by {
      assert q * len - q' * len == (q - q') * len;
    }
    MultipleBelow(q - q', len);
  }

  /** Adding a multiple of `len` does not change the remainder. */
  lemma ModAddMultiple(x: int, k: int, len: int)
    requires len >= 1
    ensures (x + k * len) % len == x % len
  {
    var q, r := x / len, x % len;
    assert x + k * len == (q + k) * len + r by {
      assert (q + k) * len == q * len + k * len;
    }
    DivModUnique(x + k * len, q + k, r, len);
  }

  /** Numbers with the same remainder stay congruent when multiplied by the
      same factor. */
  lemma ModMulCongruent(x: int, y: int, b: int, len: int)
    requires len >= 1 && x % len == y % len
    ensures (x * b) % len == (y * b) % len
  {
    var d := x / len - y / len;
    assert x - y == d * len by {
      assert x == (x / len) * len + x % len;
      assert y == (y / len) * len + y % len;
      assert (x / len) * len - (y / len) * len == d * len;
    }
    assert x * b == y * b + (d * b) * len by {
      assert x * b == (y + d * len) * b;
      assert (y + d * len) * b == y * b + (d * len) * b;
      assert (d * len) * b == (d * b) * len;
    }
    ModAddMultiple(y * b, d * b, len);
  }

  /** A non-negative number does not shrink when multiplied by a positive
      one. */
  lemma ProductAtLeast(a: int, b: int)
    requires a >= 1 && b >= 0
    ensures a * b >= b
  {
    assert a * b - b == (a - 1) * b;
  }

  /** Multiplying by a non-negative number preserves order. */
  lemma MulLeq(a: int, b: int, c: int)
    requires a <= b && c >= 0
    ensures a * c <= b * c
  {
    assert b * c - a * c == (b - a) * c;
  }

  /** Squares of non-negative numbers grow with their base. */
  lemma SquareGrows(s: int, t: int)
    requires 0 <= s < t
    ensures s * s + 2 * s < t * t
  {
    var u := t - s - 1;
    assert t * t == (s + 1) * (s + 1) + u * (t + s + 1);
    assert u * (t + s + 1) >= 0;
  }
}
