/**
 The sphere renderer (`drawSphere`) on an RGB24 picture.

 A picture is a flat byte sequence: row `y` starts at byte `y * linesize`
 and its first `width * 3` bytes hold the pixels, three bytes (R, G, B)
 each; the rest of the row is padding. The renderer visits every pixel,
 paints it black when it lies inside the circle of radius `radius + 1`,
 and then, when it lies inside the circle of radius `radius`, overwrites it
 with red 255 and a green/blue shade that depends on the distance.

 The shade is computed by the source in double precision from the square
 root of the distance; the model takes it as a parameter `shade` of the
 squared pixel distance and states only that green and blue both take it.
 */
module Raster {
  import opened Geometry

  type Byte = b: int | 0 <= b < 256

  datatype Picture = Picture(width: nat, height: nat, linesize: nat, data: seq<Byte>)

  /** What an RGB24 frame guarantees: rows hold their pixels and the buffer holds its rows. */
  predicate Wellformed(p: Picture)
  {
    p.linesize >= p.width * 3 && |p.data| >= p.height * p.linesize
  }

  /** A multiple of a positive number that lies strictly between its negation and itself is zero. */
  lemma SmallMultipleIsZero(k: int, d: int)
    requires d > 0 && -d < k * d < d
    ensures k == 0
  {
  }

  /** Quotient and remainder by a positive divisor are unique. */
  lemma DivModUnique(i: int, d: int, q: int, m: int)
    requires d > 0 && 0 <= m < d && i == q * d + m
    ensures i / d == q && i % d == m
  {
    var q', m' := i / d, i % d;
    assert i == q' * d + m';
    assert (q - q') * d == m' - m;
    SmallMultipleIsZero(q - q', d);
  }

  /** Byte `row * linesize + off` lies at row `row`, offset `off`. */
  lemma IndexSplit(row: int, off: int, linesize: int)
    requires 0 <= row && 0 <= off < linesize
    ensures (row * linesize + off) / linesize == row
    ensures (row * linesize + off) % linesize == off
  {
    DivModUnique(row * linesize + off, linesize, row, off);
  }

  /** Every index of a picture buffer is `row * linesize + off` for its own row and offset. */
  lemma IndexJoin(i: int, linesize: int)
    requires 0 <= i && 0 < linesize
    ensures i == (i / linesize) * linesize + i % linesize
    ensures 0 <= i % linesize < linesize
  {
  }

  /** An index at or past `height * linesize` lies in a row at or past `height`. */
  lemma TailRow(i: int, linesize: int, height: int)
    requires 0 < linesize && 0 <= height && height * linesize <= i
    ensures i / linesize >= height
  {
    var q := i / linesize;
    IndexJoin(i, linesize);
    if q < height {
      MulMonotone(q + 1, height, linesize);
    }
  }

  /** Multiplying by a non-negative number keeps the order. */
  lemma MulMonotone(a: int, b: int, d: int)
    requires a <= b && 0 <= d
    ensures a * d <= b * d
  {
  }

  /**
   Reference definition of the renderer: the value of byte `i` once
   `drawSphere(p, centerX, centerY, radius)` has run.
   */
  function PaintedByte(p: Picture, centerX: int, centerY: int, radius: int, shade: nat -> Byte, i: int): Byte
    requires 0 <= i < |p.data|
  {
    if p.linesize == 0 || i / p.linesize >= p.height || i % p.linesize >= p.width * 3 then p.data[i]
    else
      var off := i % p.linesize;
      PixelByte(centerX, centerY, radius, shade, i / p.linesize, off - off % 3, off % 3, p.data[i])
  }

  /**
   Byte `c` of the pixel at row `y`, byte column `x` once drawn, given its
   value `before`: red 255 and the shade inside the radius, black on the
   ring up to `radius + 1`, unchanged further out.
   */
  function PixelByte(centerX: int, centerY: int, radius: int, shade: nat -> Byte, y: int, x: int, c: int, before: Byte): Byte
  {
    if InCircle(x, y, centerX * 3, centerY, radius) then
      (if c == 0 then 255 else shade(DistSq(x, y, centerX * 3, centerY)))
    else if InCircle(x, y, centerX * 3, centerY, radius + 1) then 0
    else before
  }

  /** The picture after the sphere is drawn, byte by byte. */
  function Render(p: Picture, centerX: int, centerY: int, radius: int, shade: nat -> Byte): (q: Picture)
    ensures q.width == p.width && q.height == p.height && q.linesize == p.linesize
    ensures |q.data| == |p.data|
  {
    p.(data := seq(|p.data|, i requires 0 <= i < |p.data| => PaintedByte(p, centerX, centerY, radius, shade, i)))
  }

  /** Bytes the renderer has visited when it is at row `y`, byte column `x`. */
  predicate Visited(i: int, linesize: nat, y: int, x: int)
  {
    linesize > 0 && (i / linesize < y || (i / linesize == y && i % linesize < x))
  }

  /** Before the first row nothing has been visited. */
  lemma NothingVisited(linesize: nat)
    ensures forall i :: 0 <= i ==> !Visited(i, linesize, 0, 0)
  {
    forall i | 0 <= i
      ensures !Visited(i, linesize, 0, 0)
    {
      if linesize > 0 {
        IndexJoin(i, linesize);
      }
    }
  }

  /** Writes the three bytes of the pixel starting at byte `at`. */
  function SetPixel(data: seq<Byte>, at: int, r: Byte, g: Byte, b: Byte): (d: seq<Byte>)
    requires 0 <= at && at + 3 <= |data|
    ensures |d| == |data|
    ensures forall j :: 0 <= j < |data| && (j < at || at + 3 <= j) ==> d[j] == data[j]
    ensures d[at] == r && d[at + 1] == g && d[at + 2] == b
  {
    data[at := r][at + 1 := g][at + 2 := b]
  }

  /** Advancing by one pixel visits exactly the three bytes of that pixel. */
  lemma VisitedAdvance(i: int, linesize: nat, y: int, x: int)
    requires 0 <= i && 0 <= y && 0 <= x && x + 3 <= linesize
    ensures Visited(i, linesize, y, x + 3) <==> Visited(i, linesize, y, x) || y * linesize + x <= i < y * linesize + x + 3
  {
    IndexJoin(i, linesize);
    var at := y * linesize + x;
    if at <= i < at + 3 {
      IndexSplit(y, x + (i - at), linesize);
    }
  }

  /** The bytes of the pixel at row `y`, byte column `x` lie in the buffer. */
  lemma PixelInBuffer(p: Picture, y: int, x: int)
    requires Wellformed(p)
    requires 0 <= y < p.height && 0 <= x < p.width * 3 && x % 3 == 0
    ensures x + 3 <= p.width * 3 <= p.linesize
    ensures 0 <= y * p.linesize + x && y * p.linesize + x + 3 <= |p.data|
  {
    assert x + 3 <= p.linesize;
    assert y * p.linesize + p.linesize == (y + 1) * p.linesize <= p.height * p.linesize;
  }

  /** The reference value of byte `c` of the pixel at row `y`, byte column `x`. */
  lemma PaintedAtPixel(p: Picture, centerX: int, centerY: int, radius: int, shade: nat -> Byte, y: int, x: int, c: int)
    requires Wellformed(p)
    requires 0 <= y < p.height && 0 <= x < p.width * 3 && x % 3 == 0 && 0 <= c < 3
    ensures 0 <= y * p.linesize + x + c < |p.data|
    ensures PaintedByte(p, centerX, centerY, radius, shade, y * p.linesize + x + c)
         == PixelByte(centerX, centerY, radius, shade, y, x, c, p.data[y * p.linesize + x + c])
  {
    PixelInBuffer(p, y, x);
    PixelIndex(y * p.linesize + x + c, p.linesize, p.width, y, x, c);
  }

  /** Byte `c` of the pixel at row `y`, byte column `x` lies at that row, column and channel. */
  lemma PixelIndex(i: int, linesize: nat, width: nat, y: int, x: int, c: int)
    requires width * 3 <= linesize && 0 <= y && 0 <= x < width * 3 && x % 3 == 0 && 0 <= c < 3
    requires i == y * linesize + x + c
    ensures linesize > 0 && i / linesize == y && i % linesize == x + c
    ensures x + c < width * 3
    ensures (x + c) % 3 == c && (x + c) - (x + c) % 3 == x
  {
    assert x + 3 <= width * 3;
    IndexSplit(y, x + c, linesize);
  }

  /** Once the last pixel of row `y` is painted, the renderer has visited all of row `y`. */
  lemma RowFinished(p: Picture, centerX: int, centerY: int, radius: int, shade: nat -> Byte, data: seq<Byte>, y: int)
    requires Wellformed(p) && |data| == |p.data| && 0 <= y
    requires forall i :: 0 <= i < |data| ==>
               data[i] == if Visited(i, p.linesize, y, p.width * 3) then PaintedByte(p, centerX, centerY, radius, shade, i) else p.data[i]
    ensures forall i :: 0 <= i < |data| ==>
              data[i] == if Visited(i, p.linesize, y + 1, 0) then PaintedByte(p, centerX, centerY, radius, shade, i) else p.data[i]
  {
    forall i | 0 <= i < |data|
      ensures data[i] == if Visited(i, p.linesize, y + 1, 0) then PaintedByte(p, centerX, centerY, radius, shade, i) else p.data[i]
    {
      if p.linesize > 0 {
        IndexJoin(i, p.linesize);
      }
    }
  }

  /** Once every row is visited, every byte holds its reference value. */
  lemma AllRowsFinished(p: Picture, centerX: int, centerY: int, radius: int, shade: nat -> Byte, data: seq<Byte>)
    requires Wellformed(p) && |data| == |p.data|
    requires forall i :: 0 <= i < |data| ==>
               data[i] == if Visited(i, p.linesize, p.height, 0) then PaintedByte(p, centerX, centerY, radius, shade, i) else p.data[i]
    ensures data == Render(p, centerX, centerY, radius, shade).data
  {
    forall i | 0 <= i < |data|
      ensures data[i] == PaintedByte(p, centerX, centerY, radius, shade, i)
    {
      if p.linesize > 0 {
        IndexJoin(i, p.linesize);
      }
    }
  }

  /**
   `drawSphere`: the nested loop over rows and byte columns of the source,
   painting the border first and the shaded fill over it.
   */
  method DrawSphere(p: Picture, centerX: int, centerY: int, radius: int, shade: nat -> Byte) returns (q: Picture)
    requires Wellformed(p)
    ensures q == Render(p, centerX, centerY, radius, shade)
  {
    var ls := p.linesize;
    var data := p.data;
    var y := 0;
    NothingVisited(ls);
    while y < p.height
      invariant 0 <= y <= p.height
      invariant |data| == |p.data|
      invariant forall i :: 0 <= i < |data| ==>
                  data[i] == if Visited(i, ls, y, 0) then PaintedByte(p, centerX, centerY, radius, shade, i) else p.data[i]
    {
      data := PaintRow(p, centerX, centerY, radius, shade, data, y);
      y := y + 1;
    }
    AllRowsFinished(p, centerX, centerY, radius, shade, data);
    q := p.(data := data);
  }

  /** The inner loop of `drawSphere`: every pixel of row `y`, left to right. */
  method PaintRow(p: Picture, centerX: int, centerY: int, radius: int, shade: nat -> Byte,
                  data: seq<Byte>, y: int) returns (d: seq<Byte>)
    requires Wellformed(p) && |data| == |p.data| && 0 <= y < p.height
    requires forall i :: 0 <= i < |data| ==>
               data[i] == if Visited(i, p.linesize, y, 0) then PaintedByte(p, centerX, centerY, radius, shade, i) else p.data[i]
    ensures |d| == |p.data|
    ensures forall i :: 0 <= i < |d| ==>
              d[i] == if Visited(i, p.linesize, y + 1, 0) then PaintedByte(p, centerX, centerY, radius, shade, i) else p.data[i]
  {
    d := data;
    var x := 0;
    while x < p.width * 3
      invariant 0 <= x <= p.width * 3 && x % 3 == 0
      invariant |d| == |p.data|
      invariant forall i :: 0 <= i < |d| ==>
                  d[i] == if Visited(i, p.linesize, y, x) then PaintedByte(p, centerX, centerY, radius, shade, i) else p.data[i]
    {
      d := PaintPixel(p, centerX, centerY, radius, shade, d, y, x);
      x := x + 3;
    }
    RowFinished(p, centerX, centerY, radius, shade, d, y);
  }

  /** The loop body of `drawSphere` for the pixel at row `y`, byte column `x`. */
  method PaintPixel(p: Picture, centerX: int, centerY: int, radius: int, shade: nat -> Byte,
                    data: seq<Byte>, y: int, x: int) returns (d: seq<Byte>)
    requires Wellformed(p) && |data| == |p.data|
    requires 0 <= y < p.height && 0 <= x < p.width * 3 && x % 3 == 0
    requires forall i :: 0 <= i < |data| ==>
               data[i] == if Visited(i, p.linesize, y, x) then PaintedByte(p, centerX, centerY, radius, shade, i) else p.data[i]
    ensures |d| == |p.data|
    ensures forall i :: 0 <= i < |d| ==>
              d[i] == if Visited(i, p.linesize, y, x + 3) then PaintedByte(p, centerX, centerY, radius, shade, i) else p.data[i]
  {
    var at := y * p.linesize + x;
    PixelInBuffer(p, y, x);
    d := data;
    if InCircle(x, y, centerX * 3, centerY, radius + 1) {
      d := SetPixel(d, at, 0, 0, 0);
    }
    if InCircle(x, y, centerX * 3, centerY, radius) {
      var g := shade(DistSq(x, y, centerX * 3, centerY));
      d := SetPixel(d, at, 255, g, g);
    }
    forall i | 0 <= i < |d|
      ensures d[i] == if Visited(i, p.linesize, y, x + 3) then PaintedByte(p, centerX, centerY, radius, shade, i) else p.data[i]
    {
      VisitedAdvance(i, p.linesize, y, x);
      if at <= i < at + 3 {
        PaintedAtPixel(p, centerX, centerY, radius, shade, y, x, i - at);
        IndexSplit(y, x + (i - at), p.linesize);
      }
    }
  }

  /**
   What the drawn picture holds at byte `c` of the pixel at column `col`,
   row `row`, by squared pixel distance `d2` from the centre: inside the
   radius red is 255 and green and blue both take the shade; on the ring up
   to `radius + 1` the pixel is black; further out it keeps its colour.
   */
  lemma RenderPixel(p: Picture, centerX: int, centerY: int, radius: int, shade: nat -> Byte, row: int, col: int, c: int)
    requires Wellformed(p)
    requires 0 <= row < p.height && 0 <= col < p.width && 0 <= c < 3
    ensures 0 <= row * p.linesize + 3 * col + c < |p.data|
    ensures var q := Render(p, centerX, centerY, radius, shade).data;
            var i := row * p.linesize + 3 * col + c;
            var d2 := PixelDistSq(col, row, centerX, centerY);
            && (0 <= radius && d2 < radius * radius ==> q[i] == if c == 0 then 255 else shade(d2))
            && (0 <= radius && radius * radius <= d2 < (radius + 1) * (radius + 1) ==> q[i] == 0)
            && (radius < 0 || (radius + 1) * (radius + 1) <= d2 ==> q[i] == p.data[i])
  {
    PaintedAtPixel(p, centerX, centerY, radius, shade, row, 3 * col, c);
    ByteColumnsArePixels(col, row, centerX, centerY, radius);
    ByteColumnsArePixels(col, row, centerX, centerY, radius + 1);
    if radius < 0 {
      assert !InDisc(col, row, centerX, centerY, radius + 1);
    }
  }

  /** Green and blue of every pixel inside the radius are equal, and red is 255. */
  lemma RenderFillIsRedShade(p: Picture, centerX: int, centerY: int, radius: int, shade: nat -> Byte, row: int, col: int)
    requires Wellformed(p)
    requires 0 <= row < p.height && 0 <= col < p.width
    requires InDisc(col, row, centerX, centerY, radius)
    ensures row * p.linesize + 3 * col + 2 < |p.data|
    ensures var q := Render(p, centerX, centerY, radius, shade).data;
            var at := row * p.linesize + 3 * col;
            q[at] == 255 && q[at + 1] == q[at + 2]
  {
    RenderPixel(p, centerX, centerY, radius, shade, row, col, 0);
    RenderPixel(p, centerX, centerY, radius, shade, row, col, 1);
    RenderPixel(p, centerX, centerY, radius, shade, row, col, 2);
  }

  /** Row padding past the pixels (`width * 3 <= off < linesize`) is never written. */
  lemma RenderKeepsPadding(p: Picture, centerX: int, centerY: int, radius: int, shade: nat -> Byte, row: int, off: int)
    requires Wellformed(p)
    requires 0 <= row && p.width * 3 <= off < p.linesize && row * p.linesize + off < |p.data|
    ensures Render(p, centerX, centerY, radius, shade).data[row * p.linesize + off] == p.data[row * p.linesize + off]
  {
    IndexSplit(row, off, p.linesize);
  }

  /** Bytes past the last row (`height * linesize` and beyond) are never written. */
  lemma RenderKeepsTail(p: Picture, centerX: int, centerY: int, radius: int, shade: nat -> Byte, i: int)
    requires Wellformed(p)
    requires p.height * p.linesize <= i < |p.data|
    ensures Render(p, centerX, centerY, radius, shade).data[i] == p.data[i]
  {
    if p.linesize > 0 {
      TailRow(i, p.linesize, p.height);
    }
  }
}
