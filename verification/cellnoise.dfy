/** The integer hash of rand/cell_noise.go and the seed its callers derive
    from it. The hash is Szudzik's pairing function applied to the inputs
    reduced with Go's truncated remainder. The model assumes a 64-bit `int`:
    there the products stay far inside the range (both factors are below
    2^16 in magnitude), so no wrap-around is modelled. */
module CellNoise {

  import opened Arith

  /** Go's `%`: the remainder takes the sign of the dividend and its
      magnitude stays below the divisor. */
  function GoRem(x: int, m: int): (r: int)
    requires m >= 1
    ensures -m < r < m
    ensures x >= 0 ==> 0 <= r
    ensures x < 0 ==> r <= 0
  {
    if x >= 0 then x % m else -((-x) % m)
  }

  /** The remainder differs from the dividend by a multiple of the
      divisor. */
  lemma GoRemCongruent(x: int, m: int)
    requires m >= 1
    ensures (x - GoRem(x, m)) % m == 0
  {
    if x >= 0 {
      DivModUnique(x, x / m, x % m, m);
      DivModUnique(x - x % m, x / m, 0, m);
    } else {
      var q, p := (-x) / m, (-x) % m;
      DivModUnique(-x, q, p, m);
      assert x + p == (-q) * m;
      DivModUnique(x + p, -q, 0, m);
    }
  }

  const Cell: int := 0x1_0000

  /** `hash`: reduce both coordinates modulo 2^16 and pair them, `a*a + a +
      b` when `a >= b` and `a + b*b` otherwise. */
  function Hash(x: int, y: int): (h: int)
    ensures x >= 0 && y >= 0 ==> 0 <= h < Cell * Cell
  {
    var a, b := GoRem(x, Cell), GoRem(y, Cell);
    if a >= b then a * a + a + b else a + b * b
  }

  /** For every pair of coordinates, including the hashes the 3D callers
      feed back in, the reduced factors and the hash stay below 2^32 in
      magnitude, far inside a 64-bit Go `int`: on a 64-bit target the
      products never wrap. */
  lemma HashNoWrap(x: int, y: int)
    ensures var a, b := GoRem(x, Cell), GoRem(y, Cell);
      a * a < Cell * Cell && b * b < Cell * Cell
    ensures -2 * Cell < Hash(x, y) < Cell * Cell
  {
    var a, b := GoRem(x, Cell), GoRem(y, Cell);
    var sa, sb := if a < 0 then -a else a, if b < 0 then -b else b;
    SquareGrows(sa, Cell);
    SquareGrows(sb, Cell);
    assert a * a == sa * sa && b * b == sb * sb;
  }

  /** The seed the callers compute: `hash % 256`, negated when negative. */
  function Seed(h: int): (s: int)
    ensures 0 <= s <= 255
    ensures h >= 0 ==> s == h % 256
  {
    var r := GoRem(h, 256);
    if r < 0 then -r else r
  }

  /** The larger of the two reduced coordinates: the hash of a pair in shell
      `s` lies in `[s*s, s*s + 2*s]`. */
  function Shell(a: int, b: int): int {
    if a >= b then a else b
  }

  /** On non-negative coordinates the hash is the Szudzik pairing of the
      reduced pair: its value fixes the shell, and within the shell the
      pair. */
  lemma HashShell(a: int, b: int)
    requires 0 <= a < Cell && 0 <= b < Cell
    ensures var s := Shell(a, b); var h := Hash(a, b);
      && s * s <= h <= s * s + 2 * s
      && (a >= b <==> h >= s * s + s)
  {
    DivModUnique(a, 0, a, Cell);
    DivModUnique(b, 0, b, Cell);
  }

  /** Different reduced pairs of non-negative coordinates hash to different
      values. */
  lemma HashInjective(a: int, b: int, c: int, d: int)
    requires 0 <= a < Cell && 0 <= b < Cell && 0 <= c < Cell && 0 <= d < Cell
    requires Hash(a, b) == Hash(c, d)
    ensures a == c && b == d
  {
    HashShell(a, b);
    HashShell(c, d);
    var s, t := Shell(a, b), Shell(c, d);
    if s < t {
      SquareGrows(s, t);
    } else if t < s {
      SquareGrows(t, s);
    }
    assert s == t;
    DivModUnique(a, 0, a, Cell);
    DivModUnique(b, 0, b, Cell);
    DivModUnique(c, 0, c, Cell);
    DivModUnique(d, 0, d, Cell);
  }

  /** Non-negative coordinates repeat every 2^16 cells. */
  lemma HashPeriodic(x: int, y: int)
    requires x >= 0 && y >= 0
    ensures Hash(x + Cell, y) == Hash(x, y) && Hash(x, y + Cell) == Hash(x, y)
  {
    ModAddMultiple(x, 1, Cell);
    ModAddMultiple(y, 1, Cell);
  }
}
