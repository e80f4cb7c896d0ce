/**
 * Integer helpers for the rasterizer: the i32 range, absolute value, the
 * signed step `if d.is_negative() {-i} else {i}`, and the truncation toward
 * zero that a float-to-integer cast (`as i32`) applies. The f32 values of
 * the source are taken here as exact reals.
 */
module Arith {

  const I32_MAX: int := 0x7FFF_FFFF
  const I32_MIN: int := -0x8000_0000
  const U32_MAX: int := 0xFFFF_FFFF

  predicate IsI32(v: int) { I32_MIN <= v <= I32_MAX }

  function Abs(a: int): nat { if a < 0 then -a else a }

  function Max(a: int, b: int): int { if a < b then b else a }

  function Min(a: int, b: int): int { if a < b then a else b }

  /** `i` steps taken in the direction of the sign of `d`. */
  function Step(d: int, i: int): (r: int)
  {
    if d < 0 then -i else i
  }

  /** The step has magnitude i and, for i > 0, points the way d does. */
  lemma StepMagnitude(d: int, i: int)
    ensures Abs(Step(d, i)) == Abs(i)
    ensures i > 0 ==> ((Step(d, i) < 0) <==> (d < 0))
  {
  }

  // Products and floor quotients -------------------------------------------

  lemma MulMonotone(k: int, j: int, n: int)
    requires k <= j && 0 <= n
    ensures k * n <= j * n
  {
    assert j * n - k * n == (j - k) * n;
  }

  lemma DivMod(a: int, n: int)
    requires 0 < n
    ensures a == (a / n) * n + a % n && 0 <= a % n < n
  {
  }

  /** A quotient and remainder that add up are the quotient and remainder. */
  lemma DivUnique(a: int, n: int, q: int, r: int)
    requires 0 < n && a == q * n + r && 0 <= r < n
    ensures a / n == q
  {
    DivMod(a, n);
    if a / n < q { MulMonotone(a / n + 1, q, n); }
    if q < a / n { MulMonotone(q + 1, a / n, n); }
  }

  /** Adding at most n to a numerator moves its floor by at most one. */
  lemma FloorStep(a: int, m: int, n: int)
    requires 0 <= m <= n && 0 < n
    ensures a / n <= (a + m) / n <= a / n + 1
  {
    DivMod(a, n);
    var q, r := a / n, a % n;
    if r + m < n {
      DivUnique(a + m, n, q, r + m);
    } else {
      DivUnique(a + m, n, q + 1, r + m - n);
    }
  }

  /** Floor division by a positive number is monotone in the numerator. */
  lemma FloorMonotone(a: int, b: int, n: int)
    requires a <= b && 0 < n
    ensures a / n <= b / n
  {
    DivMod(a, n);
    DivMod(b, n);
    if b / n < a / n {
      MulMonotone(b / n + 1, a / n, n);
    }
  }

  /** For 0 <= i < n and 0 < e, the floor of i * e / n stays in [0, e). */
  lemma FloorBelow(i: int, e: int, n: int)
    requires 0 <= i < n && 0 < e
    ensures 0 <= (i * e) / n < e
  {
    DivMod(i * e, n);
    MulMonotone(i, n, e);
    FloorMonotone(0, i * e, n);
    if e <= (i * e) / n {
      MulMonotone(e, (i * e) / n, n);
    }
  }

  /** A row-major index of a point inside a w x h grid is below w * h. */
  lemma RowMajorBound(x: int, y: int, w: int, h: int)
    requires 0 <= x < w && 0 <= y < h
    ensures 0 <= y * w + x < w * h
  {
    MulMonotone(0, y, w);
    MulMonotone(y + 1, h, w);
  }

  // Truncating division -----------------------------------------------------

  /** The floor of a / n brackets a between two consecutive multiples of n. */
  lemma FloorBounds(a: nat, n: int, m: int)
    requires 0 < n && m == a / n
    ensures 0 <= m && m * n <= a < (m + 1) * n
  {
    DivMod(a, n);
    assert (m + 1) * n == m * n + n;
  }

  /**
   * The exact quotient a / b rounded toward zero. The contract pins the
   * result down: its magnitude is the floor of |a| / |b| and, when it is not
   * zero, its sign is the sign of the exact quotient.
   */
  function TruncDiv(a: int, b: int): (q: int)
    requires b != 0
    ensures Abs(q) * Abs(b) <= Abs(a) < (Abs(q) + 1) * Abs(b)
    ensures q != 0 ==> ((q < 0) <==> ((a < 0) != (b < 0)))
  {
    var m := Abs(a) / Abs(b);
    FloorBounds(Abs(a), Abs(b), m);
    if (a < 0) != (b < 0) then -m else m
  }

  /**
   * Taking `i` steps in the direction of `d` and dividing by `d` is the same
   * as dividing `i * e` by the distance |d|: the sign of `d` cancels.
   */
  lemma TruncDivSigned(d: int, i: int, e: int)
    requires d != 0 && 0 <= i
    ensures TruncDiv(Step(d, i) * e, d) == TruncDiv(i * e, Abs(d))
  {
    if d < 0 {
      var x := i * e;
      assert Step(d, i) * e == -x;
      TruncDivNeg(x, -d);
    }
  }

  /** Negating both operands leaves the truncated quotient unchanged. */
  lemma TruncDivNeg(x: int, n: int)
    requires 0 < n
    ensures TruncDiv(-x, -n) == TruncDiv(x, n)
  {
    assert Abs(-x) == Abs(x) && Abs(-n) == n;
    if x == 0 {
      assert 0 / n == 0;
    }
  }

  /**
   * For a non-negative step count, the truncated quotient by a positive
   * distance is the floor of i * |e| / n carried in the direction of e.
   */
  lemma TruncDivScaled(i: int, e: int, n: int)
    requires 0 <= i && 0 < n
    ensures TruncDiv(i * e, n) == Step(e, (i * Abs(e)) / n)
  {
    if e < 0 {
      assert i * e == -(i * Abs(e));
    } else {
      assert i * e == i * Abs(e);
    }
  }

  // Exact reals standing for the f32 slope ------------------------------------

  /** Rounding toward zero, as `as i32` rounds a float. */
  function Trunc(r: real): (n: int)
    ensures Abs(n) as real <= (if r < 0.0 then -r else r) < Abs(n) as real + 1.0
    ensures n != 0 ==> ((n < 0) <==> (r < 0.0))
  {
    if r < 0.0 then -((-r).Floor) else r.Floor
  }

  /** The floor of a non-negative ratio of integers is integer floor division. */
  lemma FloorRatio(a: int, n: int)
    requires 0 <= a && 0 < n
    ensures (a as real / n as real).Floor == a / n
  {
    var q := a / n;
    DivMod(a, n);
    var r := a as real / n as real;
    assert r * n as real == a as real;
    assert q as real * n as real <= a as real < (q + 1) as real * n as real;
    assert q as real <= r < (q + 1) as real;
  }

  /** A ratio of integers is the ratio of their magnitudes, signed. */
  lemma RatioSign(a: int, b: int)
    requires b != 0
    ensures (a < 0) == (b < 0) ==> a as real / b as real == Abs(a) as real / Abs(b) as real
    ensures (a < 0) != (b < 0) ==> a as real / b as real == -(Abs(a) as real / Abs(b) as real)
  {
    assert (Abs(a) as real / Abs(b) as real) * Abs(b) as real == Abs(a) as real;
    assert (a as real / b as real) * b as real == a as real;
    if b < 0 {
      assert b as real == -(Abs(b) as real);
    } else {
      assert b as real == Abs(b) as real;
    }
    if a < 0 {
      assert a as real == -(Abs(a) as real);
    } else {
      assert a as real == Abs(a) as real;
    }
  }

  /** Truncating the exact ratio a / b is the integer truncating division. */
  lemma TruncRatio(a: int, b: int)
    requires b != 0
    ensures Trunc(a as real / b as real) == TruncDiv(a, b)
  {
    FloorRatio(Abs(a), Abs(b));
    RatioSign(a, b);
    assert Abs(a) as real / Abs(b) as real >= 0.0;
  }

  /** `k * slope` with slope = dy / dx is the ratio (k * dy) / dx. */
  lemma SlopeProduct(k: int, slope: real, dy: int, dx: int)
    requires dx != 0 && slope == dy as real / dx as real
    ensures k as real * slope == (k * dy) as real / dx as real
  {
  }

  /** `k / slope` with slope = dy / dx is the ratio (k * dx) / dy. */
  lemma SlopeQuotient(k: int, slope: real, dy: int, dx: int)
    requires dx != 0 && dy != 0 && slope == dy as real / dx as real
    ensures k as real / slope == (k * dx) as real / dy as real
  {
  }
}
