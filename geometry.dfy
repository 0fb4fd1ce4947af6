/**
 * The pixel grid handed to the engine, the mapping from grid cells to frame
 * coordinates, and the distance from a cell to a centre (euclidian_dist).
 *
 * Dafny's reals have no square root, so the distance is kept squared and every
 * comparison "dist < b", "dist <= b", "dist > b" of the C code is decided on the
 * squared distance; lemma SqrtFree shows the two agree for every distance.
 */
module Geometry {
  import opened Outcomes

  /**
   * A square cutout of the image: `boxdims * boxdims` intensities stored row
   * by row, anchored at the frame position (xpos, ypos) of its centre.
   */
  datatype Cutout = Cutout(pixels: seq<real>, xpos: int, ypos: int, boxdims: nat)
  {
    ghost predicate Valid() {
      |pixels| == boxdims * boxdims
    }
  }

  /** Frame coordinate of grid row or column `local`: local + pos - boxdims/2. */
  function FrameCoord(local: int, pos: int, boxdims: nat): int {
    local + pos - boxdims / 2
  }

  /** Multiplying by a natural number keeps the order of two integers. */
  lemma MulMono(a: int, b: int, n: nat)
    requires a <= b
    ensures a * n <= b * n
  {
  }

  /** A product of naturals is a natural. */
  lemma MulNat(a: nat, b: nat)
    ensures a * b >= 0
  {
  }

  /** Multiplication distributes over addition. */
  lemma MulDistributes(a: int, b: int, c: int)
    ensures (a + b) * c == a * c + b * c
  {
  }

  /** Row i, column j of an n-by-n grid is a cell of the grid. */
  lemma CellInGrid(i: nat, j: nat, n: nat)
    requires i < n && j < n
    ensures i * n + j < n * n
  {
    MulMono(i + 1, n, n);
    MulDistributes(i, 1, n);
  }

  /** The cell at row-major index i*n+j sits in row i and column j. */
  lemma RowMajor(i: nat, j: nat, n: nat)
    requires i < n && j < n
    ensures i * n + j < n * n
    ensures (i * n + j) / n == i && (i * n + j) % n == j
  {
    CellInGrid(i, j, n);
    var k := i * n + j;
    var q, r := k / n, k % n;
    assert k == q * n + r && 0 <= r < n;
    if q < i {
      MulDistributes(q, 1, n);
      MulMono(q + 1, i, n);
      assert false;
    } else if q > i {
      MulDistributes(i, 1, n);
      MulMono(i + 1, q, n);
      assert false;
    }
  }

  /** The intensity at row i, column j of a cutout: pixels[i * boxdims + j]. */
  function Pixel(cut: Cutout, i: nat, j: nat): real
    requires cut.Valid() && i < cut.boxdims && j < cut.boxdims
  {
    CellInGrid(i, j, cut.boxdims);
    cut.pixels[i * cut.boxdims + j]
  }

  /** A product of two positive reals is positive. */
  lemma MulPositive(a: real, b: real)
    requires a > 0.0 && b > 0.0
    ensures a * b > 0.0
  {
  }

  /** Scaling by a non-negative real keeps the order of two reals. */
  lemma MulOrder(a: real, b: real, c: real)
    requires a <= b && c >= 0.0
    ensures a * c <= b * c
    ensures a < b && c > 0.0 ==> a * c < b * c
  {
    if a < b && c > 0.0 {
      MulPositive(b - a, c);
    }
    assert (b - a) * c == b * c - a * c;
  }

  /** A square is never negative. */
  lemma SquareNonNegative(x: real)
    ensures x * x >= 0.0
  {
    if x < 0.0 {
      MulPositive(-x, -x);
      assert (-x) * (-x) == x * x;
    } else if x > 0.0 {
      MulPositive(x, x);
    }
  }

  /**
   * Squared Euclidean distance from frame pixel (px, py) to the centre (cx, cy):
   * euclidian_dist returns its square root.
   */
  function SquaredDistance(px: int, py: int, cx: real, cy: real): (d2: real)
    ensures d2 >= 0.0
    ensures px as real == cx && py as real == cy ==> d2 == 0.0
  {
    var dx, dy := px as real - cx, py as real - cy;
    SquareNonNegative(dx);
    SquareNonNegative(dy);
    dx * dx + dy * dy
  }

  /**
   * Squared distance from the frame position of cutout cell (row i, column j)
   * to the centre c: the pixel sits at (j + xpos - boxdims/2, i + ypos - boxdims/2).
   */
  function CellSquaredDistance(cut: Cutout, c: Point, i: int, j: int): (d2: real)
    ensures d2 >= 0.0
  {
    SquaredDistance(FrameCoord(j, cut.xpos, cut.boxdims), FrameCoord(i, cut.ypos, cut.boxdims), c.x, c.y)
  }

  /** dist < bound, decided on d2 = dist*dist. */
  predicate Below(d2: real, bound: real) {
    bound > 0.0 && d2 < bound * bound
  }

  /** dist <= bound, decided on d2 = dist*dist. */
  predicate AtMost(d2: real, bound: real) {
    bound >= 0.0 && d2 <= bound * bound
  }

  /** dist > bound, decided on d2 = dist*dist. */
  predicate Beyond(d2: real, bound: real) {
    bound < 0.0 || d2 > bound * bound
  }

  /** Squaring keeps the order of non-negative reals. */
  lemma SquareOrder(a: real, b: real)
    requires 0.0 <= a <= b
    ensures a * a <= b * b
    ensures a < b ==> a * a < b * b
  {
    if a < b {
      MulPositive(b - a, b + a);
      assert (b - a) * (b + a) == b * b - a * a;
    }
  }

  /** For a non-negative distance d, comparing d with a bound is comparing d*d. */
  lemma SqrtFree(d: real, bound: real)
    requires d >= 0.0
    ensures d < bound <==> Below(d * d, bound)
    ensures d <= bound <==> AtMost(d * d, bound)
    ensures d > bound <==> Beyond(d * d, bound)
  {
    if bound >= 0.0 {
      if d <= bound {
        SquareOrder(d, bound);
      } else {
        SquareOrder(bound, d);
      }
    }
  }

  /** A larger bound admits every distance a smaller one admits. */
  lemma AtMostMonotone(d2: real, b1: real, b2: real)
    requires b1 <= b2 && AtMost(d2, b1)
    ensures AtMost(d2, b2)
  {
    SquareOrder(b1, b2);
  }
}
