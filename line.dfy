/**
 * The pixels `draw_line` visits, as values: which branch a segment takes,
 * how many loop iterations that branch runs, the point written by iteration
 * i, and the set of buffer indices written. The buffer-updating method in
 * module Render is proved against these definitions; the lemmas here state
 * what they mean.
 *
 * The diagonal branches compute the minor coordinate with an f32 slope; the
 * model uses the exact ratio and truncates it toward zero, as the final
 * `as i32` cast does.
 */
module Line {
  import opened Arith

  /** A pixel position, after the u32-to-i32 cast of `Point2D<u32>`. */
  datatype Point = Point(x: int, y: int)

  /** The four loops of `draw_line`. */
  datatype Branch = Horizontal | Vertical | Shallow | Steep

  /** The branch taken: `start.y == end.y` is tested before `start.x == end.x`. */
  function BranchOf(s: Point, e: Point): (b: Branch)
    ensures b == Horizontal <==> s.y == e.y
    ensures b == Vertical <==> s.y != e.y && s.x == e.x
    ensures (b == Shallow || b == Steep) ==> s.x != e.x && s.y != e.y
    ensures b == Shallow ==> Abs(e.y - s.y) <= Abs(e.x - s.x)
    ensures b == Steep ==> Abs(e.x - s.x) < Abs(e.y - s.y)
  {
    if s.y == e.y then Horizontal
    else if s.x == e.x then Vertical
    else if Abs(e.x - s.x) >= Abs(e.y - s.y) then Shallow
    else Steep
  }

  /** Number of iterations of the branch's loop; a range `0..n` with n <= 0 is empty. */
  function StepCount(s: Point, e: Point): (n: nat)
  {
    match BranchOf(s, e)
    case Horizontal => if s.x < e.x then e.x - s.x else 0
    case Vertical => if s.y < e.y then e.y - s.y else 0
    case Shallow => Abs(e.x - s.x)
    case Steep => Abs(e.y - s.y)
  }

  /**
   * No branch runs more iterations than the larger delta, and the diagonal
   * branches always run at least one.
   */
  lemma StepCountBound(s: Point, e: Point)
    ensures StepCount(s, e) <= Max(Abs(e.x - s.x), Abs(e.y - s.y))
    ensures BranchOf(s, e) == Shallow || BranchOf(s, e) == Steep ==> 0 < StepCount(s, e)
  {
  }

  /**
   * The point written by iteration i: the expressions of `draw_line`, with the
   * float products `step as f32 * slope` and `step as f32 / slope` (slope = dy / dx)
   * taken exactly and truncated toward zero.
   */
  function StepPoint(s: Point, e: Point, i: int): Point
  {
    var dx, dy := e.x - s.x, e.y - s.y;
    match BranchOf(s, e)
    case Horizontal => Point(s.x + i, s.y)
    case Vertical => Point(s.x, s.y + i)
    case Shallow => Point(s.x + Step(dx, i), s.y + TruncDiv(Step(dx, i) * dy, dx))
    case Steep => Point(s.x + TruncDiv(Step(dy, i) * dx, dy), s.y + Step(dy, i))
  }

  /**
   * The shallow loop written with exact integer arithmetic: column start.x
   * moved i steps toward end.x, row offset (i * dy) truncated-divided by |dx|.
   */
  function ShallowPoint(s: Point, e: Point, i: int): Point
    requires s.x != e.x
  {
    Point(s.x + Step(e.x - s.x, i), s.y + TruncDiv(i * (e.y - s.y), Abs(e.x - s.x)))
  }

  /**
   * The steep loop written the same way: row start.y moved i steps toward
   * end.y, column offset (i * dx) truncated-divided by |dy|.
   */
  function SteepPoint(s: Point, e: Point, i: int): Point
    requires s.y != e.y
  {
    Point(s.x + TruncDiv(i * (e.x - s.x), Abs(e.y - s.y)), s.y + Step(e.y - s.y, i))
  }

  /** Row-major index of a point in a buffer of the given row stride. */
  function Cell(width: int, p: Point): int
  {
    p.y * width + p.x
  }

  /** The points in drawing order. */
  function Path(s: Point, e: Point): seq<Point>
  {
    seq(StepCount(s, e), i => StepPoint(s, e, i))
  }

  /** The indices written by the first n iterations. */
  ghost function Drawn(width: int, s: Point, e: Point, n: int): set<int>
  {
    set i | 0 <= i < n :: Cell(width, StepPoint(s, e, i))
  }

  /** The indices `draw_line` writes. */
  ghost function Footprint(width: int, s: Point, e: Point): set<int>
  {
    Drawn(width, s, e, StepCount(s, e))
  }

  // Shape of the loops ------------------------------------------------------

  /** One more iteration adds exactly its own cell to the written set. */
  lemma DrawnStep(width: int, s: Point, e: Point, n: int)
    requires 0 <= n
    ensures Drawn(width, s, e, n + 1) == Drawn(width, s, e, n) + {Cell(width, StepPoint(s, e, n))}
  {
    var c := Cell(width, StepPoint(s, e, n));
    forall k | k in Drawn(width, s, e, n) + {c}
      ensures k in Drawn(width, s, e, n + 1)
    {
      if k == c {
        assert Cell(width, StepPoint(s, e, n)) in Drawn(width, s, e, n + 1);
      } else {
        var i :| 0 <= i < n && Cell(width, StepPoint(s, e, i)) == k;
        assert Cell(width, StepPoint(s, e, i)) in Drawn(width, s, e, n + 1);
      }
    }
  }

  /**
   * Nothing is drawn exactly when the segment is axis-aligned and does not
   * run toward increasing x (horizontal) or increasing y (vertical); this
   * covers start == end, which takes the horizontal branch.
   */
  lemma StepCountZero(s: Point, e: Point)
    ensures StepCount(s, e) == 0 <==> (s.y == e.y && e.x <= s.x) || (s.x == e.x && e.y <= s.y)
  {
  }

  /** A reversed or degenerate axis-aligned segment writes no cell. */
  lemma ReversedAxisAlignedEmpty(width: int, s: Point, e: Point)
    requires (s.y == e.y && e.x <= s.x) || (s.x == e.x && e.y <= s.y)
    ensures Footprint(width, s, e) == {}
  {
    StepCountZero(s, e);
    assert StepCount(s, e) == 0;
  }

  /** The shallow loop's row offset is (i * dy) truncated-divided by |dx|. */
  lemma ShallowOffsets(s: Point, e: Point, i: int)
    requires BranchOf(s, e) == Shallow && 0 <= i
    ensures StepPoint(s, e, i) == ShallowPoint(s, e, i)
  {
    TruncDivSigned(e.x - s.x, i, e.y - s.y);
  }

  /** The steep loop's column offset is (i * dx) truncated-divided by |dy|. */
  lemma SteepOffsets(s: Point, e: Point, i: int)
    requires BranchOf(s, e) == Steep && 0 <= i
    ensures StepPoint(s, e, i) == SteepPoint(s, e, i)
  {
    TruncDivSigned(e.y - s.y, i, e.x - s.x);
  }

  /**
   * The minor-axis offset of a diagonal step: the floor of i * |minor| /
   * |major| in the direction of the minor delta, and strictly shorter than
   * the minor delta while i < |major|.
   */
  lemma MinorOffset(i: int, minor: int, major: int)
    requires 0 <= i < Abs(major) && minor != 0
    ensures TruncDiv(i * minor, Abs(major)) == Step(minor, (i * Abs(minor)) / Abs(major))
    ensures 0 <= (i * Abs(minor)) / Abs(major) < Abs(minor)
  {
    TruncDivScaled(i, minor, Abs(major));
    FloorBelow(i, Abs(minor), Abs(major));
  }

  /** Iteration 0 of every non-empty branch writes the start point. */
  lemma StartIsFirst(s: Point, e: Point)
    requires StepCount(s, e) > 0
    ensures StepPoint(s, e, 0) == s
  {
    match BranchOf(s, e)
    case Horizontal =>
    case Vertical =>
    case Shallow => ShallowOffsets(s, e, 0);
    case Steep => SteepOffsets(s, e, 0);
  }

  /**
   * Every point drawn lies in the bounding box of the segment, and on the
   * dominant axis (x for horizontal and shallow, y for vertical and steep)
   * it is `start` moved i steps toward `end`, never reaching `end`.
   */
  lemma PathInBox(s: Point, e: Point, i: int)
    requires 0 <= i < StepCount(s, e)
    ensures var p := StepPoint(s, e, i);
      Min(s.x, e.x) <= p.x <= Max(s.x, e.x) && Min(s.y, e.y) <= p.y <= Max(s.y, e.y)
    ensures var p := StepPoint(s, e, i);
      BranchOf(s, e) in {Horizontal, Shallow} ==> p.x == s.x + Step(e.x - s.x, i) && p.x != e.x
    ensures var p := StepPoint(s, e, i);
      BranchOf(s, e) in {Vertical, Steep} ==> p.y == s.y + Step(e.y - s.y, i) && p.y != e.y
    ensures StepPoint(s, e, i) != e
  {
    match BranchOf(s, e)
    case Horizontal =>
    case Vertical =>
    case Shallow =>
      ShallowOffsets(s, e, i);
      MinorOffset(i, e.y - s.y, e.x - s.x);
    case Steep =>
      SteepOffsets(s, e, i);
      MinorOffset(i, e.x - s.x, e.y - s.y);
  }

  /**
   * Along the path both coordinates move monotonically toward `end`: x never
   * moves against the sign of dx, nor y against the sign of dy.
   */
  lemma PathMonotone(s: Point, e: Point, i: int, j: int)
    requires 0 <= i <= j < StepCount(s, e)
    ensures e.x >= s.x ==> StepPoint(s, e, i).x <= StepPoint(s, e, j).x
    ensures e.x <= s.x ==> StepPoint(s, e, i).x >= StepPoint(s, e, j).x
    ensures e.y >= s.y ==> StepPoint(s, e, i).y <= StepPoint(s, e, j).y
    ensures e.y <= s.y ==> StepPoint(s, e, i).y >= StepPoint(s, e, j).y
  {
    match BranchOf(s, e)
    case Horizontal =>
    case Vertical =>
    case Shallow =>
      var dx, dy := e.x - s.x, e.y - s.y;
      ShallowOffsets(s, e, i);
      ShallowOffsets(s, e, j);
      MinorOffset(i, dy, dx);
      MinorOffset(j, dy, dx);
      MulMonotone(i, j, Abs(dy));
      FloorMonotone(i * Abs(dy), j * Abs(dy), Abs(dx));
    case Steep =>
      var dx, dy := e.x - s.x, e.y - s.y;
      SteepOffsets(s, e, i);
      SteepOffsets(s, e, j);
      MinorOffset(i, dx, dy);
      MinorOffset(j, dx, dy);
      MulMonotone(i, j, Abs(dx));
      FloorMonotone(i * Abs(dx), j * Abs(dx), Abs(dy));
  }

  /**
   * Consecutive points are distinct 8-neighbours: the path has no gaps and
   * no pixel is visited twice in a row.
   */
  lemma PathConnected(s: Point, e: Point, i: int)
    requires 0 <= i && i + 1 < StepCount(s, e)
    ensures Abs(StepPoint(s, e, i + 1).x - StepPoint(s, e, i).x) <= 1
    ensures Abs(StepPoint(s, e, i + 1).y - StepPoint(s, e, i).y) <= 1
    ensures StepPoint(s, e, i + 1) != StepPoint(s, e, i)
  {
    match BranchOf(s, e)
    case Horizontal =>
    case Vertical =>
    case Shallow =>
      ShallowOffsets(s, e, i);
      ShallowOffsets(s, e, i + 1);
      MinorStep(i, e.y - s.y, e.x - s.x);
    case Steep =>
      SteepOffsets(s, e, i);
      SteepOffsets(s, e, i + 1);
      MinorStep(i, e.x - s.x, e.y - s.y);
  }

  /** One step along the major axis moves the minor offset by at most one. */
  lemma MinorStep(i: int, minor: int, major: int)
    requires 0 <= i && i + 1 < Abs(major) && 0 < Abs(minor) <= Abs(major)
    ensures Abs(TruncDiv((i + 1) * minor, Abs(major)) - TruncDiv(i * minor, Abs(major))) <= 1
  {
    MinorOffset(i, minor, major);
    MinorOffset(i + 1, minor, major);
    assert (i + 1) * Abs(minor) == i * Abs(minor) + Abs(minor);
    FloorStep(i * Abs(minor), Abs(minor), Abs(major));
  }

  /** No point is visited twice. */
  lemma PathInjective(s: Point, e: Point, i: int, j: int)
    requires 0 <= i < j < StepCount(s, e)
    ensures StepPoint(s, e, i) != StepPoint(s, e, j)
  {
    PathInBox(s, e, i);
    PathInBox(s, e, j);
  }

  /** Within a row of the given width, distinct points have distinct cells. */
  lemma CellInjective(width: int, p: Point, q: Point)
    requires 0 <= p.x < width && 0 <= q.x < width
    requires Cell(width, p) == Cell(width, q)
    ensures p == q
  {
    if p.y < q.y {
      MulMonotone(p.y + 1, q.y, width);
    } else if q.y < p.y {
      MulMonotone(q.y + 1, p.y, width);
    }
  }

  // What gets written -------------------------------------------------------

  /** For a segment whose columns fit in a row, n iterations write n distinct cells. */
  lemma {:induction false} DrawnSize(width: int, s: Point, e: Point, n: int)
    requires 0 <= s.x < width && 0 <= e.x < width
    requires 0 <= n <= StepCount(s, e)
    ensures |Drawn(width, s, e, n)| == n
  {
    if n == 0 {
      assert Drawn(width, s, e, n) == {};
    } else {
      DrawnSize(width, s, e, n - 1);
      DrawnStep(width, s, e, n - 1);
      var c := Cell(width, StepPoint(s, e, n - 1));
      if c in Drawn(width, s, e, n - 1) {
        var i :| 0 <= i < n - 1 && Cell(width, StepPoint(s, e, i)) == c;
        PathInBox(s, e, i);
        PathInBox(s, e, n - 1);
        CellInjective(width, StepPoint(s, e, i), StepPoint(s, e, n - 1));
        PathInjective(s, e, i, n - 1);
      }
    }
  }

  /** The number of cells written is the number of loop iterations. */
  lemma FootprintSize(width: int, s: Point, e: Point)
    requires 0 <= s.x < width && 0 <= e.x < width
    ensures |Footprint(width, s, e)| == StepCount(s, e)
  {
    DrawnSize(width, s, e, StepCount(s, e));
  }

  /** The start cell is written whenever anything is. */
  lemma StartDrawn(width: int, s: Point, e: Point)
    requires StepCount(s, e) > 0
    ensures Cell(width, s) in Footprint(width, s, e)
  {
    StartIsFirst(s, e);
    assert Cell(width, StepPoint(s, e, 0)) in Footprint(width, s, e);
  }

  /** The end cell is never written: the segment is half-open. */
  lemma EndNotDrawn(width: int, s: Point, e: Point)
    requires 0 <= s.x < width && 0 <= e.x < width
    ensures Cell(width, e) !in Footprint(width, s, e)
  {
    if Cell(width, e) in Footprint(width, s, e) {
      var i :| 0 <= i < StepCount(s, e) && Cell(width, StepPoint(s, e, i)) == Cell(width, e);
      PathInBox(s, e, i);
      CellInjective(width, StepPoint(s, e, i), e);
    }
  }

  /** Horizontal branch: columns start.x .. end.x - 1 of row start.y. */
  lemma HorizontalFootprint(width: int, s: Point, e: Point)
    requires s.y == e.y
    ensures Footprint(width, s, e) == set x | s.x <= x < e.x :: Cell(width, Point(x, s.y))
  {
    var rhs := set x | s.x <= x < e.x :: Cell(width, Point(x, s.y));
    forall k | k in rhs ensures k in Footprint(width, s, e) {
      var x :| s.x <= x < e.x && k == Cell(width, Point(x, s.y));
      assert StepPoint(s, e, x - s.x) == Point(x, s.y);
    }
  }

  /** Vertical branch: rows start.y .. end.y - 1 of column start.x. */
  lemma VerticalFootprint(width: int, s: Point, e: Point)
    requires s.x == e.x && s.y != e.y
    ensures Footprint(width, s, e) == set y | s.y <= y < e.y :: Cell(width, Point(s.x, y))
  {
    var rhs := set y | s.y <= y < e.y :: Cell(width, Point(s.x, y));
    forall k | k in rhs ensures k in Footprint(width, s, e) {
      var y :| s.y <= y < e.y && k == Cell(width, Point(s.x, y));
      assert StepPoint(s, e, y - s.y) == Point(s.x, y);
    }
  }

  /**
   * Shallow branch: |dx| cells, iteration i in column start.x + sign(dx) * i
   * and row start.y + (i * dy) truncated-divided by |dx|.
   */
  lemma ShallowFootprint(width: int, s: Point, e: Point)
    requires BranchOf(s, e) == Shallow
    ensures StepCount(s, e) == Abs(e.x - s.x)
    ensures Footprint(width, s, e) ==
      set i | 0 <= i < Abs(e.x - s.x) :: Cell(width, ShallowPoint(s, e, i))
  {
    forall i | 0 <= i < Abs(e.x - s.x) ensures StepPoint(s, e, i) == ShallowPoint(s, e, i) {
      ShallowOffsets(s, e, i);
    }
  }

  /**
   * Steep branch: |dy| cells, iteration i in row start.y + sign(dy) * i and
   * column start.x + (i * dx) truncated-divided by |dy|.
   */
  lemma SteepFootprint(width: int, s: Point, e: Point)
    requires BranchOf(s, e) == Steep
    ensures StepCount(s, e) == Abs(e.y - s.y)
    ensures Footprint(width, s, e) ==
      set i | 0 <= i < Abs(e.y - s.y) :: Cell(width, SteepPoint(s, e, i))
  {
    forall i | 0 <= i < Abs(e.y - s.y) ensures StepPoint(s, e, i) == SteepPoint(s, e, i) {
      SteepOffsets(s, e, i);
    }
  }

  /**
   * A segment with both end points inside a width x height window writes
   * only indices of that window's buffer.
   */
  lemma InWindowCells(width: int, height: int, s: Point, e: Point, i: int)
    requires 0 <= s.x < width && 0 <= e.x < width && 0 <= s.y < height && 0 <= e.y < height
    requires 0 <= i < StepCount(s, e)
    ensures 0 <= Cell(width, StepPoint(s, e, i)) < width * height
  {
    var p := StepPoint(s, e, i);
    PathInBox(s, e, i);
    assert 0 <= p.x < width && 0 <= p.y < height;
    RowMajorBound(p.x, p.y, width, height);
  }

  // The drawings listed as examples of the routine's behaviour --------------

  lemma Examples()
    ensures Path(Point(2, 5), Point(7, 5)) ==
      [Point(2, 5), Point(3, 5), Point(4, 5), Point(5, 5), Point(6, 5)]
    ensures Path(Point(3, 1), Point(3, 4)) == [Point(3, 1), Point(3, 2), Point(3, 3)]
    ensures Path(Point(4, 4), Point(4, 4)) == []
    ensures Path(Point(7, 5), Point(2, 5)) == []
    ensures Path(Point(0, 0), Point(4, 2)) == [Point(0, 0), Point(1, 0), Point(2, 1), Point(3, 1)]
    ensures Path(Point(0, 0), Point(2, 4)) == [Point(0, 0), Point(0, 1), Point(1, 2), Point(1, 3)]
    ensures Path(Point(4, 2), Point(0, 0)) == [Point(4, 2), Point(3, 2), Point(2, 1), Point(1, 1)]
  {
  }

  /**
   * Why `FootprintSize` needs both columns inside a row: with width 1, the
   * segment (0,2)->(3,0) runs three iterations, but its points (1,2) and
   * (2,1) both land on index 3, so only two cells are written.
   */
  lemma NarrowRowCollision()
    ensures StepCount(Point(0, 2), Point(3, 0)) == 3
    ensures StepPoint(Point(0, 2), Point(3, 0), 1) == Point(1, 2)
    ensures StepPoint(Point(0, 2), Point(3, 0), 2) == Point(2, 1)
    ensures Cell(1, Point(1, 2)) == Cell(1, Point(2, 1)) == 3
  {
    var s, e := Point(0, 2), Point(3, 0);
    assert BranchOf(s, e) == Shallow;
    assert Step(3, 1) * -2 == -2 && Step(3, 2) * -2 == -4;
    DivUnique(2, 3, 0, 2);
    DivUnique(4, 3, 1, 1);
    assert TruncDiv(-2, 3) == 0;
    assert TruncDiv(-4, 3) == -1;
  }
}
