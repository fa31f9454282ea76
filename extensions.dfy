// The two texture helpers of Assets/Scripts/Extensions.cs. A texture's
// pixels are a flat row-major sequence of an abstract colour type C.
// GetPixels is a copy of a block into a fresh array, SetPixels is the
// sequence the method hands back; the engine's texture object itself is
// not part of this model.

module Extensions {
  import opened Disc

  /** Fill: a fresh array of width * height colours, every slot set to
      `color`, which is then written over the whole texture. C(0) because the
      array starts out default-initialised, as a new C# Color[] does. */
  method Fill<C(0)>(width: nat, height: nat, color: C) returns (pixels: seq<C>)
    ensures |pixels| == width * height
    ensures forall n :: 0 <= n < |pixels| ==> pixels[n] == color
  {
    var colors := new C[width * height];
    for n := 0 to colors.Length
      invariant forall k :: 0 <= k < n ==> colors[k] == color
    {
      colors[n] := color;
    }
    pixels := colors[..];
  }

  /** Circle: draw a filled disc of the given radius, centred at
      (centerX, centerY), into the 2r x 2r block that GetPixels read at
      (centerX - radius, centerY - radius). The loop visits the quadrant
      offsets 0 <= x, y < radius, keeps those whose pixel centre passes the
      half-pixel test, and writes the four mirrored cells with the colour
      callback's value for each signed centre. The cells are indexed
      2 * radius * row + col with ABSOLUTE row and column, so the writes stay
      inside the buffer only under InBounds.

      The result is the direct per-pixel rasterisation of the disc: the
      symmetric four-way loop computes exactly Rasterized. */
  method Circle<C>(block: seq<C>, centerX: int, centerY: int, radius: nat, calcColor: PixelPos -> C)
    returns (result: seq<C>)
    requires |block| == 4 * radius * radius
    requires InBounds(centerX, centerY, radius)
    ensures result == Rasterized(block, centerX, centerY, radius, calcColor)
  {
    var colors := new C[|block|](i requires 0 <= i < |block| => block[i]);
    PaintedStart(block, centerX, centerY, radius, calcColor);
    var y := 0;
    while y < radius
      invariant 0 <= y <= radius
      invariant colors[..] == Painted(block, centerX, centerY, radius, calcColor, y, 0)
    {
      var py := centerY + y;
      var ny := centerY - y - 1;
      var x := 0;
      while x < radius
        invariant 0 <= x <= radius
        invariant colors[..] == Painted(block, centerX, centerY, radius, calcColor, y, x)
      {
        PaintStep(block, centerX, centerY, radius, calcColor, x, y);
        if Inside(radius, x, y) {
          var px := centerX + x;
          var nx := centerX - x - 1;
          ghost var before := colors[..];
          PlotAsWritten(before, centerX, centerY, radius, calcColor, x, y, py, ny, px, nx);
          colors[2 * radius * py + px] := calcColor(PixelPos(2 * x + 1, 2 * y + 1));
          ghost var s1 := colors[..];
          assert s1 == before[2 * radius * py + px := calcColor(PixelPos(2 * x + 1, 2 * y + 1))];
          colors[2 * radius * py + nx] := calcColor(PixelPos(-(2 * x + 1), 2 * y + 1));
          ghost var s2 := colors[..];
          assert s2 == s1[2 * radius * py + nx := calcColor(PixelPos(-(2 * x + 1), 2 * y + 1))];
          colors[2 * radius * ny + px] := calcColor(PixelPos(2 * x + 1, -(2 * y + 1)));
          ghost var s3 := colors[..];
          assert s3 == s2[2 * radius * ny + px := calcColor(PixelPos(2 * x + 1, -(2 * y + 1)))];
          colors[2 * radius * ny + nx] := calcColor(PixelPos(-(2 * x + 1), -(2 * y + 1)));
          assert colors[..] == s3[2 * radius * ny + nx := calcColor(PixelPos(-(2 * x + 1), -(2 * y + 1)))];
          assert colors[..] == Plot(before, centerX, centerY, radius, calcColor, x, y);
        }
        x := x + 1;
      }
      PaintedRowEnd(block, centerX, centerY, radius, calcColor, y);
      y := y + 1;
    }
    PaintedEnd(block, centerX, centerY, radius, calcColor);
    result := colors[..];
  }

  /** Circle with the index taken relative to the block, as GetPixels lays
      it out: cell (row, col) of the texture is entry BlockIndex, that is
      2 * radius * (row - (centerY - radius)) + (col - (centerX - radius)).
      BlockIndexInBuffer shows that this is Circle's index with the centre
      moved to (radius, radius), the centre in the block's own coordinates,
      so the disc lands in the middle of the block and every write is in
      bounds whatever the centre: each mirrored cell of an inside offset,
      found at its block-relative index, holds the colour of its signed
      centre. */
  method CircleInBlock<C>(block: seq<C>, centerX: int, centerY: int, radius: nat, calcColor: PixelPos -> C)
    returns (result: seq<C>)
    requires |block| == 4 * radius * radius
    ensures result == Rasterized(block, radius, radius, radius, calcColor)
    ensures forall x: nat, y: nat, flipX: bool, flipY: bool ::
      x < radius && y < radius && Inside(radius, x, y) ==>
        0 <= BlockIndex(radius, centerX, centerY, MirrorCell(centerX, centerY, x, y, flipX, flipY)) < |result| &&
        result[BlockIndex(radius, centerX, centerY, MirrorCell(centerX, centerY, x, y, flipX, flipY))]
          == calcColor(MirrorPos(x, y, flipX, flipY))
  {
    CentredInBounds(radius);
    result := Circle(block, radius, radius, radius, calcColor);
    forall x: nat, y: nat, flipX: bool, flipY: bool | x < radius && y < radius && Inside(radius, x, y)
      ensures 0 <= BlockIndex(radius, centerX, centerY, MirrorCell(centerX, centerY, x, y, flipX, flipY)) < |result|
      ensures result[BlockIndex(radius, centerX, centerY, MirrorCell(centerX, centerY, x, y, flipX, flipY))]
          == calcColor(MirrorPos(x, y, flipX, flipY))
    {
      BlockIndexInBuffer(radius, centerX, centerY, x, y, flipX, flipY);
      RasterizedMirror(block, radius, radius, radius, calcColor, x, y, flipX, flipY);
    }
  }
}
