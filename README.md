# Line rasterizer of the Raycaster demo, in Dafny

The demo opens a window and redraws it every frame. Each frame it does three things:

1. It clears the pixel buffer to black.
2. It builds the line colour.
3. It calls `draw_line`, which draws a segment from the window centre to the last cursor position.

`draw_line` writes one packed colour into a flat, row-major buffer. The colour is a `u32` laid out as `0x00RRGGBB`. It runs one of four loops:

- **Horizontal** (`start.y == end.y`): columns `start.x .. end.x - 1`. The range is only ever increasing.
- **Vertical** (`start.x == end.x`): rows `start.y .. end.y - 1`. Also only increasing.
- **Shallow** (`abs(dx) >= abs(dy)`): one column per step toward `end.x`. The row comes from truncating `step * slope`.
- **Steep** (otherwise): one row per step toward `end.y`. The column comes from truncating `step / slope`.

In every branch the end point is excluded.

The project has four modules:

- `Arith` (arith.dfy): the i32 range, the signed step `if d.is_negative() {-i} else {i}`, truncation toward zero, and floor-division facts.
- `Color` (color.dfy): `Pack` (`blue | (green << 8) | (red << 16)` on `bv32`) and the two colours the program uses.
- `Line` (line.dfy): value definitions of what `draw_line` visits. `BranchOf` gives the branch and `StepCount` the number of loop iterations. `StepPoint` gives the point written by iteration i, `Path` the points in drawing order, and `Footprint` the set of buffer indices written. The lemmas in this module state what these definitions mean.
- `Render` (render.dfy): the buffer-updating code over an `array<Pixel>` (`Pixel = bv32`). `DrawLine` does the branch tests and computes the slope. Each of its four loops is its own method; this split only keeps each proof small. `ClearFrame` is the clear loop. `Redraw` is the `RedrawRequested` frame. Every method's `ensures` gives the complete new buffer contents: the draw methods in terms of `Footprint`, `ClearFrame` as `Black` below `width * height`, and `Redraw` as `LineColor` on the footprint and `Black` elsewhere.

Two idealisations define the model:

- **The f32 slope is exact.** The slope `dy as f32 / dx as f32` and the products `step as f32 * slope` and `step as f32 / slope` are computed as exact `real`s, and `as i32` becomes rounding toward zero (`Trunc`). `Render.ShallowRow` and `Render.SteepColumn` prove that this is the same as integer truncating division `TruncDiv(step * dy, dx)` or `TruncDiv(step * dx, dy)`. `Line.ShallowOffsets` and `Line.SteepOffsets` then rewrite it as `(i * dy) quot abs(dx)` and `(i * dx) quot abs(dy)`.
- **Indexing and i32 arithmetic never fail.** The requires clauses rule out every case in which the Rust code would panic or wrap:
  - `FitsI32`: the `u32` coordinates and width fit in `i32`, so the casts at src/main.rs:8-10 leave them unchanged. It also bounds the bottom-right corner of the segment's box, so no i32 sum or product that computes an index overflows. The loop methods check every intermediate value of an index expression with `IsI32`. The deltas `dx` and `dy`, their absolute values and the negated step `-i` are not checked the same way, but `FitsI32` puts them well inside the i32 range.
  - `CellsWithin`: every index written is inside the buffer (Rust's index check).

  `Render.InWindowDrawable` shows that both requirements hold whenever both end points lie inside a window of at most `i32::MAX` pixels.

Reversed horizontal and vertical segments draw nothing, while the diagonal branches step in either direction. This asymmetry looks unintended, but the code has it, so the model keeps it and proves it: see `Line.StepCountZero` and `Line.ReversedAxisAlignedEmpty`.

## Model

| member | source | states |
|---|---|---|
| `Render.DrawLine` | src/main.rs:7-41 | After the call, each cell whose index is in `Footprint(width, start, end)` holds `color`, and every other cell keeps its old value. The buffer keeps its length. |
| `Render.DrawHorizontal` | src/main.rs:13-16 | The horizontal loop: the same full post-state for a segment with `start.y == end.y`. Each index is checked to be the cell of iteration i. |
| `Render.DrawVertical` | src/main.rs:19-22 | The vertical loop: the same full post-state for `start.x == end.x`, `start.y != end.y`. |
| `Render.DrawShallow` | src/main.rs:25-34 | The shallow loop: the same full post-state. The slope is `dy / dx`, and each row is `start.y + Trunc(step * slope)`. |
| `Render.DrawSteep` | src/main.rs:25-38 | The steep loop: the same full post-state. Each index is `(start.y + step) * width + start.x + Trunc(step / slope)`, in the source's order of evaluation. |
| `Render.ClearFrame` | src/main.rs:78-86 | Afterwards every index below `width * height` holds `Pack(0, 0, 0)`, and every cell past that bound keeps its old value. |
| `Render.Redraw` | src/main.rs:67-90 | After clear-then-draw on a `width * height` buffer, a cell holds `LineColor` when it is on the segment from `(width/2, height/2)` to the cursor, and `Black` otherwise. |
| `Render.InWindowDrawable` | src/main.rs:7-41 | If both end points lie inside a window of at most `i32::MAX` pixels, no cast changes a value, no i32 arithmetic overflows, and every written index is below `width * height`. |
| `Render.CursorInWindowDrawable` | src/main.rs:88-90 | A cursor inside the window always meets every requirement for the line drawn from the centre. |
| `Render.RowBaseFits` | src/main.rs:15 | For a row inside the segment's box, `row * width` is non-negative, and adding any column of the box stays within i32. |
| `Render.HorizontalIndex` | src/main.rs:15 | `start.y * width + start.x + i` is the cell of iteration i, and each partial sum is an i32. |
| `Render.VerticalIndex` | src/main.rs:21 | `(start.y + i) * width + start.x` is the cell of iteration i, and each partial result is an i32. |
| `Render.ShallowRow` | src/main.rs:29-33 | `start.y + (step * slope) as i32`, with `slope = dy / dx` exact, is the row of iteration i. |
| `Render.SteepColumn` | src/main.rs:29-37 | `start.x + (step / slope) as i32` is the column of iteration i. |
| `Render.ShallowIndex` | src/main.rs:33 | Given that row, the shallow index is the cell of iteration i. Every intermediate value is an i32, including the cast offset `row - start.y`. |
| `Render.SteepIndex` | src/main.rs:37 | Given the truncated column offset, the steep index evaluated left to right as `((start.y + step) * width + start.x) + offset` is the cell of iteration i. Every intermediate value is an i32, including `(start.y + step) * width + start.x` and the cast offset. |
| `Line.BranchOf` | src/main.rs:13-31 | The branch taken: horizontal exactly when `start.y == end.y`, vertical exactly when the rows differ and `start.x == end.x`. Otherwise it is diagonal with both deltas non-zero, so the slope's division is defined. It is shallow when `abs(dy) <= abs(dx)` and steep when `abs(dx) < abs(dy)`. |
| `Line.StepCount` | src/main.rs:14-36 | Transcribes the loop ranges `0..(end.x - start.x)`, `0..(end.y - start.y)`, `0..dx.abs()` and `0..dy.abs()`, where a range with an upper bound <= 0 runs no iteration. Its properties are stated by `Line.StepCountBound`, `Line.StepCountZero` and `Line.FootprintSize`. |
| `Line.StepCountBound` | src/main.rs:14-36 | No loop runs more iterations than the larger delta, and the diagonal loops always run at least one. |
| `Line.Cell` | src/main.rs:15-37 | `p.y * width + p.x`, the row-major index before `as usize`, to which each of the four index expressions reduces. `Line.CellInjective` states when it determines the point. |
| `Line.Path` | src/main.rs:13-38 | The points of iterations `0 .. StepCount - 1` in loop order. `Line.Examples` is stated over it. |
| `Line.StepPoint` | src/main.rs:15-37 | Transcribes the point that iteration i writes in each branch, using the row-major index expressions at lines 15, 21, 33 and 37 with the exact slope. Its properties are stated by `Line.PathInBox`, `Line.ShallowOffsets`, `Line.SteepOffsets` and the lemmas after them. |
| `Line.Drawn` | src/main.rs:14-37 | The set of indices written by the first n iterations. This is the loop invariant of every draw method, and `Line.DrawnStep` and `Line.DrawnSize` state its properties. |
| `Line.Footprint` | src/main.rs:13-38 | The set of indices `draw_line` writes, that is `Drawn` after all iterations. It is characterised by `Line.HorizontalFootprint`, `Line.VerticalFootprint`, `Line.ShallowFootprint` and `Line.SteepFootprint`. |
| `Arith.Step` | src/main.rs:33-37 | Transcribes `if d.is_negative() {-i} else {i}`. Its properties are stated by `Arith.StepMagnitude`. |
| `Arith.StepMagnitude` | src/main.rs:33-37 | The signed step has magnitude `abs(i)` and, for `i > 0`, is negative exactly when d is. |
| `Arith.Trunc` | src/main.rs:33-37 | The float-to-`i32` cast as rounding toward zero: the magnitude of the result is the floor of the magnitude of the argument, and a non-zero result has the argument's sign. |
| `Render.Center` | src/main.rs:90 | `Point2D::new(width / 2, height / 2)`: for non-negative sizes, each coordinate is half the size rounded down. |
| `Line.StepCountZero` | src/main.rs:13-22 | No iteration runs if and only if the segment is horizontal with `end.x <= start.x`, or vertical with `end.y <= start.y`. In particular `start == end` draws nothing. |
| `Line.ReversedAxisAlignedEmpty` | src/main.rs:13-22 | A reversed or degenerate axis-aligned segment writes no cell. |
| `Line.StartIsFirst` | src/main.rs:13-38 | In every non-empty branch, iteration 0 writes exactly the start point. |
| `Line.StartDrawn` | src/main.rs:13-38 | The start cell `start.y * width + start.x` is written whenever anything is. |
| `Line.EndNotDrawn` | src/main.rs:13-38 | The end cell is never written when both columns fit in a row. The segment is half-open. |
| `Line.HorizontalFootprint` | src/main.rs:13-16 | For `start.y == end.y`, the written set is exactly the cells `(x, start.y)` for `start.x <= x < end.x`. |
| `Line.VerticalFootprint` | src/main.rs:19-22 | For a vertical segment, the written set is exactly the cells `(start.x, y)` for `start.y <= y < end.y`. |
| `Line.ShallowFootprint` | src/main.rs:31-34 | Exactly `abs(dx)` iterations run. The written set is the cells of column `start.x + sign(dx) * i` and row `start.y + (i * dy) quot abs(dx)` for `0 <= i < abs(dx)`. |
| `Line.SteepFootprint` | src/main.rs:35-38 | Exactly `abs(dy)` iterations run. The written set is the cells of row `start.y + sign(dy) * i` and column `start.x + (i * dx) quot abs(dy)` for `0 <= i < abs(dy)`. |
| `Line.ShallowOffsets` | src/main.rs:29-33 | The shallow point built from `step * dy / dx` equals the one built from `(i * dy) quot abs(dx)`, so the sign of dx cancels. |
| `Line.SteepOffsets` | src/main.rs:29-37 | The steep point built from `step * dx / dy` equals the one built from `(i * dx) quot abs(dy)`. |
| `Line.MinorOffset` | src/main.rs:33-37 | For `i < abs(major)`, the minor offset points the same way as the minor delta and is strictly smaller in size. |
| `Line.MinorStep` | src/main.rs:32-38 | From one iteration to the next, the minor offset changes by at most one. |
| `Line.PathInBox` | src/main.rs:13-38 | Every point drawn lies in the segment's bounding box. On the dominant axis it is `start` moved i steps toward `end`, and it never equals `end`, so the columns (or rows) never reach the end coordinate. |
| `Line.PathMonotone` | src/main.rs:13-38 | As i grows, x never moves against the sign of dx and y never moves against the sign of dy. |
| `Line.PathConnected` | src/main.rs:13-38 | Consecutive points are distinct and differ by at most one in each coordinate, so the path has no gaps. |
| `Line.PathInjective` | src/main.rs:13-38 | No point is visited twice. |
| `Line.CellInjective` | src/main.rs:15 | For columns inside `[0, width)`, the row-major index `y * width + x` determines both x and y. |
| `Line.DrawnStep` | src/main.rs:14-38 | Each iteration adds exactly its own cell to the written set. |
| `Line.DrawnSize` | src/main.rs:13-38 | If both columns fit in a row, n iterations write n distinct cells. |
| `Line.FootprintSize` | src/main.rs:13-38 | If both end columns lie in `[0, width)`, the number of cells written equals the number of loop iterations. Without that condition, two points of the segment can share a row-major index, as `Line.NarrowRowCollision` shows. |
| `Line.NarrowRowCollision` | src/main.rs:31-33 | With width 1, the shallow segment `(0,2)->(3,0)` runs three iterations, but iterations 1 and 2 write the points (1,2) and (2,1), which share index 3. |
| `Line.InWindowCells` | src/main.rs:90 | For end points inside a `width x height` window, every written index is in `[0, width * height)`. |
| `Line.Examples` | src/main.rs:13-38 | Concrete paths: `(2,5)->(7,5)` draws x = 2..6. `(3,1)->(3,4)` draws y = 1..3. `(4,4)->(4,4)` and `(7,5)->(2,5)` draw nothing. `(0,0)->(4,2)` draws (0,0),(1,0),(2,1),(3,1). `(0,0)->(2,4)` draws (0,0),(0,1),(1,2),(1,3). `(4,2)->(0,0)` draws (4,2),(3,2),(2,1),(1,1). |
| `Color.Pack` | src/main.rs:85 | For byte channels, the packed word is `blue + 256 * green + 65536 * red`, below `2^24`, and each channel reads back. |
| `Color.PackUnpack` | src/main.rs:85 | Every 24-bit word is the packing of its own red, green and blue bytes. |
| `Color.ColorConstants` | src/main.rs:85-88 | The cleared colour `0 \| (0 << 8) \| (0 << 16)` is 0. The line colour `0 \| (255 << 8) \| (255 << 16)` is `0xFFFF00`. |
| `Arith.TruncDiv` | src/main.rs:33-37 | Truncation toward zero of `a / b`: the magnitude is the floor of `abs(a) / abs(b)`, and a non-zero result has the sign of the exact quotient. |
| `Arith.TruncRatio` | src/main.rs:33-37 | Truncating the exact real `a / b` gives the integer truncating division of a by b. |
| `Arith.FloorBounds` | src/main.rs:33-37 | The floor of `a / n` for `a >= 0` is non-negative and brackets a between two consecutive multiples of n. |
| `Arith.TruncDivNeg` | src/main.rs:33-37 | Negating both operands leaves the truncated quotient unchanged. |
| `Arith.TruncDivSigned` | src/main.rs:33-37 | Dividing `Step(d, i) * e` by d equals dividing `i * e` by `abs(d)`. |

## Left out

- Window, context and surface creation, the event loop, `resumed` and `main` (src/main.rs:51-58, 108-114): these are calls into the windowing libraries.
- `surface.resize`, `surface.buffer_mut` and `buffer.present()` (src/main.rs:73-77, 92): presentation I/O. `Redraw` instead takes the resized buffer as a parameter and requires its length to be `width * height`. It requires `width` and `height` to be non-zero, because `NonZeroU32::new(..).unwrap()` panics on 0, and requires `width * height` to fit in a `u32`.
- The `CursorMoved` handler (src/main.rs:94-98), which converts the cursor position from `f64` to `u32` and requests a redraw: the cursor is a parameter of `Redraw`. A cursor whose segment would index outside the buffer makes the source panic. The model turns that into the precondition `CellsWithin`.
- The `CloseRequested` handler (src/main.rs:99-101): it only ends the event loop.
- Render.DrawShallow: does not model f32 rounding of the slope and of `step * slope`. While the coordinates stay well below 2^24, which covers every real window size, only the slope and the product are rounded. The exact-real row can then differ from the f32 row by one, wherever rounding carries the product across an integer: for example `(0,0)->(44,26)` at i = 22. There the f32 slope `26/44` is 0.59090906, 22 times it rounds to 12.999999, and the cast gives row 12 where the exact row is 13. Beyond 2^24 the int-to-f32 conversions of `step`, `dx` and `dy` round as well, so the gap can be many rows. `DrawLine`'s requires still admit such segments; for them the model draws the exact line, not the f32 one.
- Render.DrawSteep: same f32 idealisation for `step / slope`, with the same one-column gap below 2^24 and larger gaps beyond it. In the exact model the offsets are bounded by the deltas, so the saturation of a float-to-i32 cast never occurs. Whether f32 rounding could reach the saturation bound is not modelled.
- The out-of-range `u32 -> i32` conversions (src/main.rs:8-10) are excluded by the `FitsI32` precondition and not modelled. The point conversions `start.cast()` and `end.cast()` at lines 8-9 panic on a coordinate above `i32::MAX`. The `width as i32` at line 10 wraps instead. The wrap-around of i32 index arithmetic in release builds, and its panic in debug builds, are excluded the same way.
- FitsI32: bounds the bottom-right corner `Max(y) * width + Max(x)` of the segment's box, although the loops never write the end point. Some segments whose written indices all fit in i32 are therefore excluded. This only matters for windows of more than 2^31 pixels, which `Redraw`'s requirement `width * height <= u32::MAX` still allows.
- The values `y = index / width` and `x = index % width` in the clear loop (src/main.rs:79-80) are computed and never used, so the model leaves them out.
