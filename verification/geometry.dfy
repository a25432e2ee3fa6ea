/**
 Distance and containment tests of the sphere renderer.

 The renderer addresses a column by BYTE offset (three bytes per RGB24
 pixel) and a row by its plain index, so the horizontal difference is
 divided by 3 with C++ integer division (truncation toward zero) before it is squared.
 The source compares `sqrt(dx*dx + dy*dy) < radius` in floating point; the
 model compares the squared distance with the squared radius, which has the
 same meaning for exact reals (see `SquaredTestIsExact`).
 */
module Geometry {

  /** C++ `a / 3` on `int`: the quotient truncated toward zero. */
  function TruncDivBy3(a: int): (q: int)
    ensures a >= 0 ==> 0 <= a - 3 * q < 3
    ensures a < 0 ==> -3 < a - 3 * q <= 0
    ensures a % 3 == 0 ==> 3 * q == a
  {
    if a >= 0 then a / 3 else -((-a) / 3)
  }

  /** The square of the value `dist_from(x1, y1, x2, y2)` returns. */
  function DistSq(x1: int, y1: int, x2: int, y2: int): (d: nat)
    ensures d >= (y1 - y2) * (y1 - y2)
    ensures (x1 - x2) % 3 == 0 ==> 9 * d == (x1 - x2) * (x1 - x2) + 9 * (y1 - y2) * (y1 - y2)
  {
    var dx := TruncDivBy3(x1 - x2);
    var dy := y1 - y2;
    dx * dx + dy * dy
  }

  /**
   `inCircle(x, y, centerX, centerY, radius)`: the distance is strictly
   below the radius. No point is inside a circle of radius 0 or less, and
   the centre is inside every circle of positive radius.
   */
  predicate InCircle(x: int, y: int, centerX: int, centerY: int, radius: int): (b: bool)
    ensures b ==> radius > 0
    ensures x == centerX && y == centerY ==> (b <==> radius > 0)
  {
    radius > 0 && DistSq(x, y, centerX, centerY) < radius * radius
  }

  /** The squared pixel distance of column `col`, row `row` from the pixel `centerCol`, `centerRow`. */
  function PixelDistSq(col: int, row: int, centerCol: int, centerRow: int): nat
  {
    (col - centerCol) * (col - centerCol) + (row - centerRow) * (row - centerRow)
  }

  /** Pixel-space disc test: column and row differences taken as they are. */
  predicate InDisc(col: int, row: int, centerCol: int, centerRow: int, radius: int)
  {
    radius > 0 && PixelDistSq(col, row, centerCol, centerRow) < radius * radius
  }

  /**
   For a non-negative real `d` whose square is the integer `dsq` (that is,
   `d == sqrt(dsq)`), the floating-point test `d < radius` of the source
   holds exactly when the integer test of `InCircle` does.
   */
  lemma SquaredTestIsExact(dsq: nat, d: real, radius: int)
    requires 0.0 <= d && d * d == dsq as real
    ensures d < radius as real <==> (radius > 0 && dsq < radius * radius)
  {
    var r := radius as real;
    if radius > 0 {
      assert (radius * radius) as real == r * r;
      if d < r {
        assert d * d <= d * r;
        assert d * r < r * r;
      } else {
        assert r * r <= r * d;
        assert r * d <= d * d;
      }
    }
  }

  /**
   At the call sites of the renderer both x arguments are byte offsets of
   pixel starts (`3 * col` and `3 * centerCol`), so the truncating division
   is exact and the byte-space test is the pixel-space disc test.
   */
  lemma ByteColumnsArePixels(col: int, row: int, centerCol: int, centerRow: int, radius: int)
    ensures InCircle(3 * col, row, 3 * centerCol, centerRow, radius) <==> InDisc(col, row, centerCol, centerRow, radius)
    ensures DistSq(3 * col, row, 3 * centerCol, centerRow) == PixelDistSq(col, row, centerCol, centerRow)
  {
    assert (3 * col - 3 * centerCol) % 3 == 0;
    assert TruncDivBy3(3 * col - 3 * centerCol) == col - centerCol;
  }
}
