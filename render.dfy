/**
 * The buffer-updating code of one frame: `draw_line`, the clear loop of the
 * `RedrawRequested` handler, and that handler's sequence of clear, pick the
 * line colour, draw from the window centre to the cursor. The pixel buffer
 * is a row-major `array<Pixel>`; each method is proved against the value
 * definitions of module Line.
 */
module Render {
  import opened Arith
  import opened Color
  import opened Line

  /**
   * What `draw_line` needs of its numbers: the u32 coordinates and width are
   * left unchanged by `as i32`, and no i32 sum or product computing an index
   * overflows (every one is bounded by the bottom-right corner of the
   * segment's bounding box).
   */
  predicate FitsI32(width: int, s: Point, e: Point)
  {
    && 0 <= width <= I32_MAX
    && 0 <= s.x <= I32_MAX && 0 <= s.y <= I32_MAX
    && 0 <= e.x <= I32_MAX && 0 <= e.y <= I32_MAX
    && Max(s.y, e.y) * width + Max(s.x, e.x) <= I32_MAX
  }

  /** Every index `draw_line` writes addresses the buffer; Rust panics otherwise. */
  predicate CellsWithin(width: int, s: Point, e: Point, len: int)
  {
    forall i :: 0 <= i < StepCount(s, e) ==> 0 <= Cell(width, StepPoint(s, e, i)) < len
  }

  /** A row inside the segment's box starts at a non-negative i32 index with room for any of its columns. */
  lemma RowBaseFits(width: int, s: Point, e: Point, p: Point)
    requires FitsI32(width, s, e)
    requires Min(s.y, e.y) <= p.y <= Max(s.y, e.y)
    ensures 0 <= p.y * width && p.y * width + Max(s.x, e.x) <= I32_MAX
  {
    MulMonotone(0, p.y, width);
    MulMonotone(p.y, Max(s.y, e.y), width);
  }

  /**
   * The index expression of the horizontal loop is the cell of iteration i,
   * and every i32 value on the way to it is in range.
   */
  lemma HorizontalIndex(width: int, s: Point, e: Point, i: int)
    requires FitsI32(width, s, e) && s.y == e.y && 0 <= i < e.x - s.x
    ensures IsI32(s.y * width) && IsI32(s.y * width + s.x)
    ensures s.y * width + s.x + i == Cell(width, StepPoint(s, e, i)) && IsI32(s.y * width + s.x + i)
  {
    PathInBox(s, e, i);
    RowBaseFits(width, s, e, StepPoint(s, e, i));
  }

  /** The same for the vertical loop. */
  lemma VerticalIndex(width: int, s: Point, e: Point, i: int)
    requires FitsI32(width, s, e) && s.y != e.y && s.x == e.x && 0 <= i < e.y - s.y
    ensures IsI32(s.y + i) && IsI32((s.y + i) * width)
    ensures (s.y + i) * width + s.x == Cell(width, StepPoint(s, e, i)) && IsI32((s.y + i) * width + s.x)
  {
    PathInBox(s, e, i);
    RowBaseFits(width, s, e, StepPoint(s, e, i));
  }

  /**
   * The shallow loop's row, `start.y + (step as f32 * slope) as i32` with
   * the slope dy / dx taken exactly, is the row of iteration i.
   */
  lemma ShallowRow(s: Point, e: Point, i: int, step: int, slope: real)
    requires BranchOf(s, e) == Shallow && 0 <= i && step == Step(e.x - s.x, i)
    requires slope == (e.y - s.y) as real / (e.x - s.x) as real
    ensures s.y + Trunc(step as real * slope) == StepPoint(s, e, i).y
  {
    SlopeProduct(step, slope, e.y - s.y, e.x - s.x);
    TruncRatio(step * (e.y - s.y), e.x - s.x);
  }

  /**
   * The steep loop's column, `start.x + (step as f32 / slope) as i32`, is
   * the column of iteration i.
   */
  lemma SteepColumn(s: Point, e: Point, i: int, step: int, slope: real)
    requires BranchOf(s, e) == Steep && 0 <= i && step == Step(e.y - s.y, i)
    requires slope == (e.y - s.y) as real / (e.x - s.x) as real
    ensures s.x + Trunc(step as real / slope) == StepPoint(s, e, i).x
  {
    SlopeQuotient(step, slope, e.y - s.y, e.x - s.x);
    TruncRatio(step * (e.x - s.x), e.y - s.y);
  }

  /**
   * Given that row, the shallow loop's index is the cell of iteration i, and
   * every i32 value on the way to it is in range.
   */
  lemma ShallowIndex(width: int, s: Point, e: Point, i: int, row: int)
    requires FitsI32(width, s, e) && BranchOf(s, e) == Shallow && 0 <= i < Abs(e.x - s.x)
    requires row == StepPoint(s, e, i).y
    ensures IsI32(row - s.y) && IsI32(row) && IsI32(row * width) && IsI32(row * width + s.x)
    ensures row * width + s.x + Step(e.x - s.x, i) == Cell(width, StepPoint(s, e, i))
    ensures IsI32(row * width + s.x + Step(e.x - s.x, i))
  {
    PathInBox(s, e, i);
    RowBaseFits(width, s, e, StepPoint(s, e, i));
  }

  /**
   * Given the truncated column offset, the steep loop's index, evaluated left
   * to right as `((row * width) + start.x) + offset`, is the cell of
   * iteration i, and every i32 value on the way to it is in range.
   */
  lemma SteepIndex(width: int, s: Point, e: Point, i: int, offset: int)
    requires FitsI32(width, s, e) && BranchOf(s, e) == Steep && 0 <= i < Abs(e.y - s.y)
    requires s.x + offset == StepPoint(s, e, i).x
    ensures IsI32(s.y + Step(e.y - s.y, i)) && IsI32((s.y + Step(e.y - s.y, i)) * width)
    ensures IsI32((s.y + Step(e.y - s.y, i)) * width + s.x) && IsI32(offset)
    ensures (s.y + Step(e.y - s.y, i)) * width + s.x + offset == Cell(width, StepPoint(s, e, i))
    ensures IsI32((s.y + Step(e.y - s.y, i)) * width + s.x + offset)
  {
    PathInBox(s, e, i);
    RowBaseFits(width, s, e, StepPoint(s, e, i));
  }

  /**
   * `draw_line`: sets to `color` exactly the cells of the segment's
   * footprint and leaves every other cell as it was. The branch tests and
   * the slope are computed here; each of the four loops is a method below.
   */
  method DrawLine(buffer: array<Pixel>, width: int, start: Point, end: Point, color: Pixel)
    requires FitsI32(width, start, end)
    requires CellsWithin(width, start, end, buffer.Length)
    modifies buffer
    ensures forall k :: 0 <= k < buffer.Length ==>
      buffer[k] == if k in Footprint(width, start, end) then color else old(buffer[k])
  {
    if start.y == end.y {
      DrawHorizontal(buffer, width, start, end, color);
    } else if start.x == end.x {
      DrawVertical(buffer, width, start, end, color);
    } else {
      var dx := end.x - start.x;
      var dy := end.y - start.y;
      var slope := dy as real / dx as real;
      if Abs(dx) >= Abs(dy) {
        DrawShallow(buffer, width, start, end, slope, color);
      } else {
        DrawSteep(buffer, width, start, end, slope, color);
      }
    }
  }

  /** `for i in 0..(end.x - start.x)`: row start.y, columns start.x upward. */
  method DrawHorizontal(buffer: array<Pixel>, width: int, start: Point, end: Point, color: Pixel)
    requires FitsI32(width, start, end) && start.y == end.y
    requires CellsWithin(width, start, end, buffer.Length)
    modifies buffer
    ensures forall k :: 0 <= k < buffer.Length ==>
      buffer[k] == if k in Footprint(width, start, end) then color else old(buffer[k])
  {
    var i := 0;
    while i < end.x - start.x
      invariant 0 <= i && (i == 0 || i <= end.x - start.x)
      invariant forall k :: 0 <= k < buffer.Length ==>
        buffer[k] == if k in Drawn(width, start, end, i) then color else old(buffer[k])
    {
      var index := start.y * width + start.x + i;
      HorizontalIndex(width, start, end, i);
      DrawnStep(width, start, end, i);
      buffer[index] := color;
      i := i + 1;
    }
  }

  /** `for i in 0..(end.y - start.y)`: column start.x, rows start.y downward. */
  method DrawVertical(buffer: array<Pixel>, width: int, start: Point, end: Point, color: Pixel)
    requires FitsI32(width, start, end) && start.y != end.y && start.x == end.x
    requires CellsWithin(width, start, end, buffer.Length)
    modifies buffer
    ensures forall k :: 0 <= k < buffer.Length ==>
      buffer[k] == if k in Footprint(width, start, end) then color else old(buffer[k])
  {
    var i := 0;
    while i < end.y - start.y
      invariant 0 <= i && (i == 0 || i <= end.y - start.y)
      invariant forall k :: 0 <= k < buffer.Length ==>
        buffer[k] == if k in Drawn(width, start, end, i) then color else old(buffer[k])
    {
      var index := (start.y + i) * width + start.x;
      VerticalIndex(width, start, end, i);
      DrawnStep(width, start, end, i);
      buffer[index] := color;
      i := i + 1;
    }
  }

  /** `for i in 0..dx.abs()`: one column per step, the row from the slope. */
  method DrawShallow(buffer: array<Pixel>, width: int, start: Point, end: Point, slope: real, color: Pixel)
    requires FitsI32(width, start, end) && BranchOf(start, end) == Shallow
    requires slope == (end.y - start.y) as real / (end.x - start.x) as real
    requires CellsWithin(width, start, end, buffer.Length)
    modifies buffer
    ensures forall k :: 0 <= k < buffer.Length ==>
      buffer[k] == if k in Footprint(width, start, end) then color else old(buffer[k])
  {
    var dx := end.x - start.x;
    var i := 0;
    while i < Abs(dx)
      invariant 0 <= i <= Abs(dx)
      invariant forall k :: 0 <= k < buffer.Length ==>
        buffer[k] == if k in Drawn(width, start, end, i) then color else old(buffer[k])
    {
      var step := Step(dx, i);
      var row := start.y + Trunc(step as real * slope);
      ShallowRow(start, end, i, step, slope);
      ShallowIndex(width, start, end, i, row);
      var index := row * width + start.x + step;
      DrawnStep(width, start, end, i);
      buffer[index] := color;
      i := i + 1;
    }
  }

  /** `for i in 0..dy.abs()`: one row per step, the column from the slope. */
  method DrawSteep(buffer: array<Pixel>, width: int, start: Point, end: Point, slope: real, color: Pixel)
    requires FitsI32(width, start, end) && BranchOf(start, end) == Steep
    requires slope == (end.y - start.y) as real / (end.x - start.x) as real
    requires CellsWithin(width, start, end, buffer.Length)
    modifies buffer
    ensures forall k :: 0 <= k < buffer.Length ==>
      buffer[k] == if k in Footprint(width, start, end) then color else old(buffer[k])
  {
    var dy := end.y - start.y;
    var i := 0;
    while i < Abs(dy)
      invariant 0 <= i <= Abs(dy)
      invariant forall k :: 0 <= k < buffer.Length ==>
        buffer[k] == if k in Drawn(width, start, end, i) then color else old(buffer[k])
    {
      var step := Step(dy, i);
      var offset := Trunc(step as real / slope);
      SteepColumn(start, end, i, step, slope);
      SteepIndex(width, start, end, i, offset);
      var index := (start.y + step) * width + start.x + offset;
      DrawnStep(width, start, end, i);
      buffer[index] := color;
      i := i + 1;
    }
  }

  /**
   * The clear loop: every index below width * height becomes
   * `blue | (green << 8) | (red << 16)` with all three channels 0; cells past
   * that bound are not touched.
   */
  method ClearFrame(buffer: array<Pixel>, width: int, height: int)
    requires 0 <= width && 0 <= height
    requires width * height <= U32_MAX
    requires width * height <= buffer.Length
    modifies buffer
    ensures forall k :: 0 <= k < width * height ==> buffer[k] == Black
    ensures forall k :: width * height <= k < buffer.Length ==> buffer[k] == old(buffer[k])
  {
    var index := 0;
    while index < width * height
      invariant 0 <= index <= width * height
      invariant forall k :: 0 <= k < index ==> buffer[k] == Black
      invariant forall k :: index <= k < buffer.Length ==> buffer[k] == old(buffer[k])
    {
      var red, green, blue := 0, 0, 0;
      buffer[index] := Pack(red, green, blue);
      index := index + 1;
    }
  }

  /** Where the line starts: the centre of the window, by u32 division. */
  function Center(width: int, height: int): (c: Point)
    requires 0 <= width && 0 <= height
    ensures 2 * c.x <= width <= 2 * c.x + 1 && 2 * c.y <= height <= 2 * c.y + 1
  {
    Point(width / 2, height / 2)
  }

  /**
   * One `RedrawRequested` frame on the freshly sized buffer: afterwards the
   * line from the centre to the cursor is in `LineColor` and everything
   * else is `Black`.
   */
  method Redraw(buffer: array<Pixel>, width: int, height: int, pos: Point)
    requires 0 < width && 0 < height && width * height <= U32_MAX
    requires buffer.Length == width * height
    requires FitsI32(width, Center(width, height), pos)
    requires CellsWithin(width, Center(width, height), pos, buffer.Length)
    modifies buffer
    ensures forall k :: 0 <= k < buffer.Length ==>
      buffer[k] == if k in Footprint(width, Center(width, height), pos) then LineColor else Black
  {
    ClearFrame(buffer, width, height);
    var color := Pack(255, 255, 0);
    DrawLine(buffer, width, Point(width / 2, height / 2), pos, color);
  }

  /**
   * Both end points inside a window whose pixel count fits in an i32 is
   * enough for every requirement of `draw_line` on that window's buffer.
   */
  lemma InWindowDrawable(width: int, height: int, s: Point, e: Point)
    requires 0 < width && 0 < height && width * height <= I32_MAX
    requires 0 <= s.x < width && 0 <= e.x < width && 0 <= s.y < height && 0 <= e.y < height
    ensures FitsI32(width, s, e)
    ensures CellsWithin(width, s, e, width * height)
  {
    RowMajorBound(Max(s.x, e.x), Max(s.y, e.y), width, height);
    MulMonotone(1, height, width);
    forall i | 0 <= i < StepCount(s, e)
      ensures 0 <= Cell(width, StepPoint(s, e, i)) < width * height
    {
      InWindowCells(width, height, s, e, i);
    }
  }

  /** In particular a cursor inside the window can always be drawn to from the centre. */
  lemma CursorInWindowDrawable(width: int, height: int, pos: Point)
    requires 0 < width && 0 < height && width * height <= I32_MAX
    requires 0 <= pos.x < width && 0 <= pos.y < height
    ensures FitsI32(width, Center(width, height), pos)
    ensures CellsWithin(width, Center(width, height), pos, width * height)
  {
    InWindowDrawable(width, height, Center(width, height), pos);
  }
}
