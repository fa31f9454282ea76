// Geometry of the disc rasteriser in Extensions.Circle: buffer cells, the
// flat index the rasteriser computes for them, the half-pixel centre test,
// the four-way mirror, and a direct per-pixel reference rasterisation that
// the symmetric loop is proved against.

module Disc {

  /** The centre of a pixel relative to the circle centre, with both
      coordinates DOUBLED: offset (x, y) has its centre at (x + 0.5, y + 0.5),
      which is PixelPos(2 * x + 1, 2 * y + 1). Every centre the rasteriser
      hands to its colour function is exact this way. */
  datatype PixelPos = PixelPos(x2: int, y2: int)

  /** A texture cell by row (y) and column (x). */
  datatype Cell = Cell(row: int, col: int)

  /** The flat buffer index the rasteriser writes for a cell: the row stride
      is the block width 2 * radius, while row and column are the absolute
      texture coordinates. */
  function Index(radius: nat, c: Cell): int
  {
    2 * radius * c.row + c.col
  }

  /** The half-pixel centre test `(x + 0.5)^2 + (y + 0.5)^2 < radius^2`,
      multiplied by four so that it is a test on integers. */
  predicate InDisc(radius: nat, p: PixelPos)
  {
    p.x2 * p.x2 + p.y2 * p.y2 < 4 * radius * radius
  }

  /** The test the loop makes for the quadrant offset (x, y). */
  predicate Inside(radius: nat, x: int, y: int)
  {
    InDisc(radius, PixelPos(2 * x + 1, 2 * y + 1))
  }

  /** How far coordinate v lies from the centre line c, counted the way the
      loop counts it: v = c + k and v = c - k - 1 both have offset k. */
  function Offset(c: int, v: int): nat
  {
    if v >= c then v - c else c - 1 - v
  }

  /** The coordinate at a given offset from c, on the near side (c + k) or,
      when flipped, on the far side (c - k - 1). Offset and side are
      recovered from it. */
  function Coord(c: int, offset: nat, flip: bool): (v: int)
    ensures Offset(c, v) == offset
    ensures (v < c) == flip
  {
    if flip then c - offset - 1 else c + offset
  }

  /** The doubled centre coordinate for an offset, negated when flipped. */
  function Half(offset: nat, flip: bool): int
  {
    if flip then -(2 * offset + 1) else 2 * offset + 1
  }

  /** One of the four cells the loop writes for offset (x, y):
      columns px = cx + x and nx = cx - x - 1, rows py = cy + y and
      ny = cy - y - 1. */
  function MirrorCell(cx: int, cy: int, x: nat, y: nat, flipX: bool, flipY: bool): Cell
  {
    Cell(Coord(cy, y, flipY), Coord(cx, x, flipX))
  }

  /** The signed centre the loop passes to the colour function for that cell. */
  function MirrorPos(x: nat, y: nat, flipX: bool, flipY: bool): PixelPos
  {
    PixelPos(Half(x, flipX), Half(y, flipY))
  }

  /** The doubled centre of a cell relative to the circle centre (cx, cy). */
  function CentreOf(cx: int, cy: int, c: Cell): PixelPos
  {
    PixelPos(2 * (c.col - cx) + 1, 2 * (c.row - cy) + 1)
  }

  /** The cell a flat index stands for. The columns of a circle centred at
      cx span [cx - radius, cx + radius), exactly one row stride, so every
      index is the Index of exactly one such cell. */
  function CellAt(radius: nat, cx: int, i: int): (c: Cell)
    requires radius > 0
    ensures cx - radius <= c.col < cx + radius
    ensures Index(radius, c) == i
  {
    var k := i - (cx - radius);
    Cell(k / (2 * radius), k % (2 * radius) + cx - radius)
  }

  /** The four indices written for offset (x, y) lie in a buffer of
      4 * radius^2 cells. */
  predicate CellsInBuffer(radius: nat, cx: int, cy: int, x: nat, y: nat)
  {
    forall flipX: bool, flipY: bool ::
      0 <= Index(radius, MirrorCell(cx, cy, x, y, flipX, flipY)) < 4 * radius * radius
  }

  /** No write of the rasteriser falls outside the 2r x 2r buffer that
      GetPixels returns: the condition under which the source does not
      throw an index-out-of-range exception. */
  predicate InBounds(cx: int, cy: int, radius: nat)
  {
    forall x: nat, y: nat :: x < radius && y < radius && Inside(radius, x, y) ==>
      CellsInBuffer(radius, cx, cy, x, y)
  }

  /** Direct per-pixel rasterisation, the reference for the symmetric loop:
      the cell that index i stands for gets calcColor(centre) when it lies in the
      2r x 2r window around (cx, cy) and its centre passes the disc test, and
      keeps block[i] otherwise. */
  function Pixel<C>(block: seq<C>, cx: int, cy: int, radius: nat, calcColor: PixelPos -> C, i: int): C
    requires 0 <= i < |block|
  {
    if radius == 0 then block[i]
    else
      var c := CellAt(radius, cx, i);
      var p := CentreOf(cx, cy, c);
      if cy - radius <= c.row < cy + radius && InDisc(radius, p) then calcColor(p) else block[i]
  }

  /** The buffer after the whole disc has been drawn. */
  function Rasterized<C>(block: seq<C>, cx: int, cy: int, radius: nat, calcColor: PixelPos -> C): (s: seq<C>)
    ensures |s| == |block|
  {
    seq(|block|, i requires 0 <= i < |block| => Pixel(block, cx, cy, radius, calcColor, i))
  }

  /** The cell at index i has a quadrant offset that the loop, which runs
      y outermost and x innermost, has finished before reaching (x, y). */
  predicate Covered(radius: nat, cx: int, cy: int, y: int, x: int, i: int)
    requires radius > 0
  {
    var c := CellAt(radius, cx, i);
    Offset(cy, c.row) < y || (Offset(cy, c.row) == y && Offset(cx, c.col) < x)
  }

  /** The buffer as the loop has it just before offset (x, y). */
  function Painted<C>(block: seq<C>, cx: int, cy: int, radius: nat, calcColor: PixelPos -> C, y: int, x: int): (s: seq<C>)
    ensures |s| == |block|
  {
    seq(|block|, i requires 0 <= i < |block| =>
      if radius > 0 && Covered(radius, cx, cy, y, x, i) then Pixel(block, cx, cy, radius, calcColor, i) else block[i])
  }

  // ---------------------------------------------------------------------
  // Arithmetic helpers

  lemma MulMonotone(d: int, a: int, b: int)
    requires d >= 0 && a <= b
    ensures d * a <= d * b
  {
    assert d * b - d * a == d * (b - a);
  }

  /** A non-zero multiple of d is at least d away from zero. */
  lemma MulAwayFromZero(d: int, k: int)
    requires d >= 0
    ensures k >= 1 ==> d * k >= d
    ensures k <= -1 ==> d * k <= -d
  {
    if k >= 1 {
      MulMonotone(d, 1, k);
    } else if k <= -1 {
      MulMonotone(d, k, -1);
    }
  }

  /** Two cells whose columns lie in one row stride have different indices
      unless they are the same cell. */
  lemma IndexInjective(radius: nat, cx: int, c: Cell, e: Cell)
    requires radius > 0
    requires cx - radius <= c.col < cx + radius && cx - radius <= e.col < cx + radius
    requires Index(radius, c) == Index(radius, e)
    ensures c == e
  {
    var d := 2 * radius;
    assert d * (c.row - e.row) == e.col - c.col;
    MulAwayFromZero(d, c.row - e.row);
  }

  // ---------------------------------------------------------------------
  // Decoding indices back into cells

  /** Decoding the index of a cell in the window gives that cell back. */
  lemma CellAtIndex(radius: nat, cx: int, c: Cell)
    requires radius > 0
    requires cx - radius <= c.col < cx + radius
    ensures CellAt(radius, cx, Index(radius, c)) == c
  {
    IndexInjective(radius, cx, CellAt(radius, cx, Index(radius, c)), c);
  }

  /** The mirror cells of offset (x, y) decode to offset (x, y) and to the
      sides of the centre their flips name. */
  lemma MirrorCellDecodes(radius: nat, cx: int, cy: int, x: nat, y: nat, flipX: bool, flipY: bool)
    requires x < radius
    ensures CellAt(radius, cx, Index(radius, MirrorCell(cx, cy, x, y, flipX, flipY)))
         == MirrorCell(cx, cy, x, y, flipX, flipY)
  {
    CellAtIndex(radius, cx, MirrorCell(cx, cy, x, y, flipX, flipY));
  }

  /** A cell is the mirror cell of its own offsets on its own sides. */
  lemma CellIsMirror(cx: int, cy: int, c: Cell)
    ensures c == MirrorCell(cx, cy, Offset(cx, c.col), Offset(cy, c.row), c.col < cx, c.row < cy)
  {
  }

  /** The centre of a mirror cell is the signed centre passed for it. */
  lemma MirrorCentre(cx: int, cy: int, x: nat, y: nat, flipX: bool, flipY: bool)
    ensures CentreOf(cx, cy, MirrorCell(cx, cy, x, y, flipX, flipY)) == MirrorPos(x, y, flipX, flipY)
  {
  }

  /** The disc test is symmetric: one quadrant test decides all four cells. */
  lemma InsideSymmetric(radius: nat, x: nat, y: nat, flipX: bool, flipY: bool)
    ensures InDisc(radius, MirrorPos(x, y, flipX, flipY)) == Inside(radius, x, y)
  {
    var p := MirrorPos(x, y, flipX, flipY);
    assert p.x2 * p.x2 == (2 * x + 1) * (2 * x + 1);
    assert p.y2 * p.y2 == (2 * y + 1) * (2 * y + 1);
  }

  // ---------------------------------------------------------------------
  // Properties of the four-way mirror

  /** Every disc pixel is written exactly once: two writes of the loop, for
      offsets in the quadrant and any choice of mirror, hit the same index
      only when they are the same write. So the four mirrored cells are
      pairwise distinct and different offsets write disjoint cells. */
  lemma MirrorWritesDisjoint(radius: nat, cx: int, cy: int,
                             x: nat, y: nat, flipX: bool, flipY: bool,
                             x': nat, y': nat, flipX': bool, flipY': bool)
    requires x < radius && y < radius && x' < radius && y' < radius
    requires Index(radius, MirrorCell(cx, cy, x, y, flipX, flipY))
          == Index(radius, MirrorCell(cx, cy, x', y', flipX', flipY'))
    ensures x == x' && y == y' && flipX == flipX' && flipY == flipY'
  {
    IndexInjective(radius, cx, MirrorCell(cx, cy, x, y, flipX, flipY), MirrorCell(cx, cy, x', y', flipX', flipY'));
  }

  // ---------------------------------------------------------------------
  // What the rasterisation writes and what it leaves

  /** For every offset (x, y) of the quadrant whose centre passes the test,
      each of its four mirrored cells lies in the window [c - r, c + r) on
      both axes and receives the colour for its own signed centre. */
  lemma RasterizedMirror<C>(block: seq<C>, cx: int, cy: int, radius: nat, calcColor: PixelPos -> C,
                            x: nat, y: nat, flipX: bool, flipY: bool)
    requires x < radius && y < radius && Inside(radius, x, y)
    requires 0 <= Index(radius, MirrorCell(cx, cy, x, y, flipX, flipY)) < |block|
    ensures var c := MirrorCell(cx, cy, x, y, flipX, flipY);
      cy - radius <= c.row < cy + radius && cx - radius <= c.col < cx + radius
    ensures Rasterized(block, cx, cy, radius, calcColor)[Index(radius, MirrorCell(cx, cy, x, y, flipX, flipY))]
         == calcColor(MirrorPos(x, y, flipX, flipY))
  {
    MirrorCellDecodes(radius, cx, cy, x, y, flipX, flipY);
    MirrorCentre(cx, cy, x, y, flipX, flipY);
    InsideSymmetric(radius, x, y, flipX, flipY);
  }

  /** Nothing else changes: an index that no write of an inside offset hits
      keeps the value GetPixels read. */
  lemma RasterizedUnwritten<C>(block: seq<C>, cx: int, cy: int, radius: nat, calcColor: PixelPos -> C, i: int)
    requires 0 <= i < |block|
    requires forall x: nat, y: nat, flipX: bool, flipY: bool ::
      x < radius && y < radius && Inside(radius, x, y) ==>
        Index(radius, MirrorCell(cx, cy, x, y, flipX, flipY)) != i
    ensures Rasterized(block, cx, cy, radius, calcColor)[i] == block[i]
  {
    if radius > 0 {
      // The cell at i is a mirror cell of its own offsets, so by the
      // requires it is not inside the disc.
      var c := CellAt(radius, cx, i);
      var x, y := Offset(cx, c.col), Offset(cy, c.row);
      CellIsMirror(cx, cy, c);
      assert Index(radius, MirrorCell(cx, cy, x, y, c.col < cx, c.row < cy)) == i;
      MirrorCentre(cx, cy, x, y, c.col < cx, c.row < cy);
      InsideSymmetric(radius, x, y, c.col < cx, c.row < cy);
    }
  }

  /** Conversely, a cell of the window whose centre fails the test keeps
      its old value: offsets outside the disc trigger no write. */
  lemma RasterizedOutsideDisc<C>(block: seq<C>, cx: int, cy: int, radius: nat, calcColor: PixelPos -> C, c: Cell)
    requires cx - radius <= c.col < cx + radius
    requires 0 <= Index(radius, c) < |block|
    requires !InDisc(radius, CentreOf(cx, cy, c))
    ensures Rasterized(block, cx, cy, radius, calcColor)[Index(radius, c)] == block[Index(radius, c)]
  {
    if radius > 0 {
      CellAtIndex(radius, cx, c);
    }
  }

  // ---------------------------------------------------------------------
  // The loop's progress

  /** Before the first offset nothing has been drawn. */
  lemma PaintedStart<C>(block: seq<C>, cx: int, cy: int, radius: nat, calcColor: PixelPos -> C)
    ensures Painted(block, cx, cy, radius, calcColor, 0, 0) == block
  {
  }

  /** Finishing row y of the quadrant is starting row y + 1. */
  lemma PaintedRowEnd<C>(block: seq<C>, cx: int, cy: int, radius: nat, calcColor: PixelPos -> C, y: int)
    ensures Painted(block, cx, cy, radius, calcColor, y, radius) == Painted(block, cx, cy, radius, calcColor, y + 1, 0)
  {
  }

  /** After the last row the buffer is the reference rasterisation. */
  lemma PaintedEnd<C>(block: seq<C>, cx: int, cy: int, radius: nat, calcColor: PixelPos -> C)
    ensures Painted(block, cx, cy, radius, calcColor, radius, 0) == Rasterized(block, cx, cy, radius, calcColor)
  {
    forall i | 0 <= i < |block|
      ensures Painted(block, cx, cy, radius, calcColor, radius, 0)[i] == Rasterized(block, cx, cy, radius, calcColor)[i]
    {
      if radius > 0 {
        var c := CellAt(radius, cx, i);
        if cy - radius <= c.row < cy + radius {
          assert Offset(cy, c.row) < radius;
        }
      }
    }
  }

  /** Index i is one of the cells whose offset is exactly (x, y). */
  predicate StepHits(radius: nat, cx: int, cy: int, x: nat, y: nat, i: int)
    requires radius > 0
  {
    var c := CellAt(radius, cx, i);
    Offset(cy, c.row) == y && Offset(cx, c.col) == x
  }

  /** Each mirror cell of offset (x, y) belongs to step (x, y), and the
      reference gives it the colour of its own signed centre when the offset
      is inside the disc and leaves it as it was otherwise. */
  lemma MirrorPixel<C>(block: seq<C>, cx: int, cy: int, radius: nat, calcColor: PixelPos -> C,
                       x: nat, y: nat, flipX: bool, flipY: bool)
    requires x < radius && y < radius
    requires 0 <= Index(radius, MirrorCell(cx, cy, x, y, flipX, flipY)) < |block|
    ensures var i := Index(radius, MirrorCell(cx, cy, x, y, flipX, flipY));
      StepHits(radius, cx, cy, x, y, i) &&
      Pixel(block, cx, cy, radius, calcColor, i)
        == if Inside(radius, x, y) then calcColor(MirrorPos(x, y, flipX, flipY)) else block[i]
  {
    MirrorCellDecodes(radius, cx, cy, x, y, flipX, flipY);
    MirrorCentre(cx, cy, x, y, flipX, flipY);
    InsideSymmetric(radius, x, y, flipX, flipY);
  }

  /** Conversely, every index that belongs to step (x, y) is one of its
      mirror cells, on the sides of the centre where its cell lies. */
  lemma HitIsMirror(radius: nat, cx: int, cy: int, x: nat, y: nat, i: int)
    requires radius > 0
    requires StepHits(radius, cx, cy, x, y, i)
    ensures var c := CellAt(radius, cx, i);
      i == Index(radius, MirrorCell(cx, cy, x, y, c.col < cx, c.row < cy))
  {
    CellIsMirror(cx, cy, CellAt(radius, cx, i));
  }

  /** The four cells written for one offset have four different indices. */
  lemma MirrorsDistinct(radius: nat, cx: int, cy: int, x: nat, y: nat)
    requires x < radius && y < radius
    ensures var ff := Index(radius, MirrorCell(cx, cy, x, y, false, false));
      var tf := Index(radius, MirrorCell(cx, cy, x, y, true, false));
      var ft := Index(radius, MirrorCell(cx, cy, x, y, false, true));
      var tt := Index(radius, MirrorCell(cx, cy, x, y, true, true));
      ff != tf && ff != ft && ff != tt && tf != ft && tf != tt && ft != tt
  {
    forall flipX: bool, flipY: bool, flipX': bool, flipY': bool |
      Index(radius, MirrorCell(cx, cy, x, y, flipX, flipY)) == Index(radius, MirrorCell(cx, cy, x, y, flipX', flipY'))
      ensures flipX == flipX' && flipY == flipY'
    {
      MirrorWritesDisjoint(radius, cx, cy, x, y, flipX, flipY, x, y, flipX', flipY');
    }
  }

  /** The four mirror cells' indices, written the way the loop computes
      them from py = cy + y, ny = cy - y - 1, px = cx + x, nx = cx - x - 1. */
  lemma MirrorIndices(radius: nat, cx: int, cy: int, x: nat, y: nat)
    ensures Index(radius, MirrorCell(cx, cy, x, y, false, false)) == 2 * radius * (cy + y) + (cx + x)
    ensures Index(radius, MirrorCell(cx, cy, x, y, true, false)) == 2 * radius * (cy + y) + (cx - x - 1)
    ensures Index(radius, MirrorCell(cx, cy, x, y, false, true)) == 2 * radius * (cy - y - 1) + (cx + x)
    ensures Index(radius, MirrorCell(cx, cy, x, y, true, true)) == 2 * radius * (cy - y - 1) + (cx - x - 1)
  {
  }

  /** The four writes the loop makes for an inside offset (x, y), in the
      source's order: (py, px), (py, nx), (ny, px), (ny, nx). */
  function Plot<C>(s: seq<C>, cx: int, cy: int, radius: nat, calcColor: PixelPos -> C, x: nat, y: nat): (t: seq<C>)
    requires CellsInBuffer(radius, cx, cy, x, y) && |s| == 4 * radius * radius
    ensures |t| == |s|
  {
    s[Index(radius, MirrorCell(cx, cy, x, y, false, false)) := calcColor(MirrorPos(x, y, false, false))]
     [Index(radius, MirrorCell(cx, cy, x, y, true, false)) := calcColor(MirrorPos(x, y, true, false))]
     [Index(radius, MirrorCell(cx, cy, x, y, false, true)) := calcColor(MirrorPos(x, y, false, true))]
     [Index(radius, MirrorCell(cx, cy, x, y, true, true)) := calcColor(MirrorPos(x, y, true, true))]
  }

  /** Plot with the indices and centres written the way the loop writes
      them, from its row and column variables py, ny, px and nx. */
  lemma PlotAsWritten<C>(s: seq<C>, cx: int, cy: int, radius: nat, calcColor: PixelPos -> C, x: nat, y: nat,
                         py: int, ny: int, px: int, nx: int)
    requires CellsInBuffer(radius, cx, cy, x, y) && |s| == 4 * radius * radius
    requires py == cy + y && ny == cy - y - 1 && px == cx + x && nx == cx - x - 1
    ensures 0 <= 2 * radius * py + px < |s| && 0 <= 2 * radius * py + nx < |s|
    ensures 0 <= 2 * radius * ny + px < |s| && 0 <= 2 * radius * ny + nx < |s|
    ensures Plot(s, cx, cy, radius, calcColor, x, y)
         == s[2 * radius * py + px := calcColor(PixelPos(2 * x + 1, 2 * y + 1))]
             [2 * radius * py + nx := calcColor(PixelPos(-(2 * x + 1), 2 * y + 1))]
             [2 * radius * ny + px := calcColor(PixelPos(2 * x + 1, -(2 * y + 1)))]
             [2 * radius * ny + nx := calcColor(PixelPos(-(2 * x + 1), -(2 * y + 1)))]
  {
    MirrorIndices(radius, cx, cy, x, y);
    assert 0 <= Index(radius, MirrorCell(cx, cy, x, y, false, false)) < |s|;
    assert 0 <= Index(radius, MirrorCell(cx, cy, x, y, true, false)) < |s|;
    assert 0 <= Index(radius, MirrorCell(cx, cy, x, y, false, true)) < |s|;
    assert 0 <= Index(radius, MirrorCell(cx, cy, x, y, true, true)) < |s|;
  }

  /** One step of the inner loop: for an inside offset the four writes, in
      the source's order, turn the buffer before (x, y) into the buffer
      after it; for an outside offset the buffer is already right. */
  lemma PaintStep<C>(block: seq<C>, cx: int, cy: int, radius: nat, calcColor: PixelPos -> C, x: nat, y: nat)
    requires x < radius && y < radius
    requires |block| == 4 * radius * radius
    requires Inside(radius, x, y) ==> CellsInBuffer(radius, cx, cy, x, y)
    ensures Inside(radius, x, y) ==>
      Painted(block, cx, cy, radius, calcColor, y, x + 1)
        == Plot(Painted(block, cx, cy, radius, calcColor, y, x), cx, cy, radius, calcColor, x, y)
    ensures !Inside(radius, x, y) ==>
      Painted(block, cx, cy, radius, calcColor, y, x + 1) == Painted(block, cx, cy, radius, calcColor, y, x)
  {
    var before := Painted(block, cx, cy, radius, calcColor, y, x);
    var after := Painted(block, cx, cy, radius, calcColor, y, x + 1);
    forall i | 0 <= i < |block|
      ensures after[i] == (if StepHits(radius, cx, cy, x, y, i) then Pixel(block, cx, cy, radius, calcColor, i) else before[i])
      ensures StepHits(radius, cx, cy, x, y, i) ==> before[i] == block[i]
    {
    }
    if Inside(radius, x, y) {
      var ff := Index(radius, MirrorCell(cx, cy, x, y, false, false));
      var tf := Index(radius, MirrorCell(cx, cy, x, y, true, false));
      var ft := Index(radius, MirrorCell(cx, cy, x, y, false, true));
      var tt := Index(radius, MirrorCell(cx, cy, x, y, true, true));
      assert 0 <= Index(radius, MirrorCell(cx, cy, x, y, false, false)) < |block|;
      assert 0 <= Index(radius, MirrorCell(cx, cy, x, y, true, false)) < |block|;
      assert 0 <= Index(radius, MirrorCell(cx, cy, x, y, false, true)) < |block|;
      assert 0 <= Index(radius, MirrorCell(cx, cy, x, y, true, true)) < |block|;
      MirrorPixel(block, cx, cy, radius, calcColor, x, y, false, false);
      MirrorPixel(block, cx, cy, radius, calcColor, x, y, true, false);
      MirrorPixel(block, cx, cy, radius, calcColor, x, y, false, true);
      MirrorPixel(block, cx, cy, radius, calcColor, x, y, true, true);
      MirrorsDistinct(radius, cx, cy, x, y);
      var updated := Plot(before, cx, cy, radius, calcColor, x, y);
      forall i | 0 <= i < |block| ensures after[i] == updated[i] {
        if StepHits(radius, cx, cy, x, y, i) {
          HitIsMirror(radius, cx, cy, x, y, i);
        }
      }
    } else {
      forall i | 0 <= i < |block| ensures after[i] == before[i] {
        if StepHits(radius, cx, cy, x, y, i) {
          HitIsMirror(radius, cx, cy, x, y, i);
          var c := CellAt(radius, cx, i);
          MirrorPixel(block, cx, cy, radius, calcColor, x, y, c.col < cx, c.row < cy);
        }
      }
    }
  }

  // ---------------------------------------------------------------------
  // Bounds of the two calls the program makes

  /** A cell of the block [0, 2r) x [0, 2r) has an index in [0, 4r^2). */
  lemma WindowIndexInBuffer(radius: nat, c: Cell)
    requires 0 <= c.row < 2 * radius && 0 <= c.col < 2 * radius
    ensures 0 <= Index(radius, c) < 4 * radius * radius
  {
    MulMonotone(2 * radius, 0, c.row);
    MulMonotone(2 * radius, c.row, 2 * radius - 1);
    assert 2 * radius * (2 * radius - 1) == 4 * radius * radius - 2 * radius;
  }

  /** The index of a texture cell in the 2r x 2r block that GetPixels lays
      out for a circle centred at (cx, cy): row and column taken relative
      to the block's corner (cx - radius, cy - radius). */
  function BlockIndex(radius: nat, cx: int, cy: int, c: Cell): int
  {
    2 * radius * (c.row - (cy - radius)) + (c.col - (cx - radius))
  }

  /** Indexed relative to the block, the four cells of every quadrant
      offset lie in the buffer whatever the centre, and their indices are
      the ones of the same offsets drawn around (radius, radius). */
  lemma BlockIndexInBuffer(radius: nat, cx: int, cy: int, x: nat, y: nat, flipX: bool, flipY: bool)
    requires x < radius && y < radius
    ensures BlockIndex(radius, cx, cy, MirrorCell(cx, cy, x, y, flipX, flipY))
         == Index(radius, MirrorCell(radius, radius, x, y, flipX, flipY))
    ensures 0 <= BlockIndex(radius, cx, cy, MirrorCell(cx, cy, x, y, flipX, flipY)) < 4 * radius * radius
  {
    var c := MirrorCell(radius, radius, x, y, flipX, flipY);
    assert MirrorCell(cx, cy, x, y, flipX, flipY) == Cell(c.row + cy - radius, c.col + cx - radius);
    WindowIndexInBuffer(radius, c);
  }

  /** With the centre at (radius, radius) the window is the block itself and
      every write is in bounds: the coloured disc of the program. */
  lemma CentredInBounds(radius: nat)
    ensures InBounds(radius, radius, radius)
  {
    forall x: nat, y: nat | x < radius && y < radius && Inside(radius, x, y)
      ensures CellsInBuffer(radius, radius, radius, x, y)
    {
      forall flipX: bool, flipY: bool
        ensures 0 <= Index(radius, MirrorCell(radius, radius, x, y, flipX, flipY)) < 4 * radius * radius
      {
        WindowIndexInBuffer(radius, MirrorCell(radius, radius, x, y, flipX, flipY));
      }
    }
  }

  /** The inner hole is drawn centred at (R, R) with radius R - T. For every
      thickness 0 < T < R some write overruns its 4 (R - T)^2 buffer: the
      offset (0, R - T - 1) is inside the disc, and its near cell has index
      4 (R - T)^2 + 2 (R - T)(T - 1) + R. */
  lemma InnerHoleOverruns(outer: nat, thick: nat)
    requires 0 < thick < outer
    ensures var r := outer - thick;
      Inside(r, 0, r - 1) &&
      Index(r, MirrorCell(outer, outer, 0, r - 1, false, false)) == 4 * r * r + 2 * r * (thick - 1) + outer
    ensures !InBounds(outer, outer, outer - thick)
  {
    var r: nat := outer - thick;
    assert (2 * (r - 1) + 1) * (2 * (r - 1) + 1) == 4 * r * r - 4 * r + 1;
    var c := MirrorCell(outer, outer, 0, r - 1, false, false);
    assert c == Cell(outer + r - 1, outer);
    assert 2 * r * (outer + r - 1) == 4 * r * r + 2 * r * (thick - 1) by {
      assert outer + r - 1 == 2 * r + (thick - 1);
    }
    MulMonotone(2 * r, 0, thick - 1);
    assert !CellsInBuffer(r, outer, outer, 0, r - 1);
  }

  /** The program's defaults, Radius = 512 and Thick = 100: the hole's
      buffer has 678976 cells and, as a witness, the write for offset
      (0, 411) goes to index 761064. It is not the first write to fail:
      see DefaultHoleFirstOverrun. */
  lemma DefaultHoleOverruns()
    ensures Index(412, MirrorCell(512, 512, 0, 411, false, false)) == 761064
    ensures 4 * 412 * 412 == 678976
    ensures !InBounds(512, 512, 412)
  {
    InnerHoleOverruns(512, 100);
  }

  /** Squaring is monotone on the naturals. */
  lemma SquareMonotone(a: int, b: int)
    ensures 0 <= a <= b ==> a * a <= b * b
  {
    if 0 <= a <= b {
      MulMonotone(a, a, b);
      MulMonotone(b, a, b);
    }
  }

  /** With the defaults, in the loop's order (rows y outermost, then x),
      every write of an inside offset on the rows before y = 312 is in
      bounds, and the first write of offset (0, 312), at row py = 824 and
      column px = 512, goes to index 679488 of the 678976-cell buffer. That
      is the write at which the call throws, so the program stops before it
      applies, encodes or saves the texture. */
  lemma DefaultHoleFirstOverrun()
    ensures forall x: nat, y: nat :: x < 412 && y < 312 && Inside(412, x, y) ==> CellsInBuffer(412, 512, 512, x, y)
    ensures Inside(412, 0, 312)
    ensures Index(412, MirrorCell(512, 512, 0, 312, false, false)) == 679488
    ensures 679488 >= 4 * 412 * 412
  {
    forall x: nat, y: nat | x < 412 && y < 312 && Inside(412, x, y)
      ensures CellsInBuffer(412, 512, 512, x, y)
    {
      // On row y = 311 the disc test keeps the columns below 512 + 312.
      SquareMonotone(625, 2 * x + 1);
      SquareMonotone(2 * y + 1, 623);
      forall flipX: bool, flipY: bool
        ensures 0 <= Index(412, MirrorCell(512, 512, x, y, flipX, flipY)) < 4 * 412 * 412
      {
      }
    }
  }
}
