/** `PixIndex` of pxu/general.go: the offset of pixel `(x, y)` in a
    row-major RGBA buffer, four bytes per pixel. */
module Pixels {

  import opened Arith

  /** `PixIndex(x, y, width) = y*4*width + x*4`. */
  function PixIndex(x: int, y: int, width: int): (idx: int)
    ensures idx % 4 == 0
  {
    var i := y * 4 * width + x * 4;
    assert i == (y * width + x) * 4;
    DivModUnique(i, y * width + x, 0, 4);
    i
  }

  /** The next pixel in a row is four bytes further on; the next row is
      `4*width` bytes further on. */
  lemma PixSteps(x: int, y: int, width: int)
    ensures PixIndex(x + 1, y, width) == PixIndex(x, y, width) + 4
    ensures PixIndex(x, y + 1, width) == PixIndex(x, y, width) + 4 * width
  {
    assert (y + 1) * 4 * width == y * 4 * width + 4 * width;
  }

  /** Inside a `width` by `height` image the four bytes of a pixel lie
      inside the `4*width*height` byte buffer. */
  lemma PixInBounds(x: int, y: int, width: int, height: int)
    requires 0 <= x < width && 0 <= y < height
    ensures 0 <= PixIndex(x, y, width)
    ensures PixIndex(x, y, width) + 3 < 4 * width * height
  {
    var p := y * width + x;
    assert PixIndex(x, y, width) == 4 * p by {
      assert y * 4 * width == 4 * (y * width);
    }
    assert 0 <= y * width by {
      ProductAtLeast(width, y);
    }
    assert p + 1 <= height * width by {
      assert (y + 1) * width == y * width + width;
      MulLeq(y + 1, height, width);
    }
    assert 4 * (height * width) == 4 * width * height;
  }

  /** The pixel is recovered from its index: the column is the pixel number
      modulo `width` and the row is the quotient. */
  lemma PixInverse(x: int, y: int, width: int)
    requires 0 <= x < width
    ensures PixIndex(x, y, width) / 4 % width == x
    ensures PixIndex(x, y, width) / 4 / width == y
  {
    var p := y * width + x;
    DivModUnique(PixIndex(x, y, width), p, 0, 4);
    DivModUnique(p, y, x, width);
  }

  /** Distinct pixels of one image have distinct indices. */
  lemma PixInjective(x: int, y: int, u: int, v: int, width: int)
    requires 0 <= x < width && 0 <= u < width
    requires PixIndex(x, y, width) == PixIndex(u, v, width)
    ensures x == u && y == v
  {
    PixInverse(x, y, width);
    PixInverse(u, v, width);
  }
}
