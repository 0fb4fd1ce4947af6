/**
 * Intensity-threshold centroiding (centroid in centroid.c): the grid is
 * thresholded into a 0/1 mask, the set cells are counted, and the row and
 * column indices of the set cells are summed; their means, shifted into frame
 * coordinates, are the centroid.
 */
module CentroidEstimator {
  import opened Outcomes
  import opened Geometry

  /** The mask bit of one intensity: 1 when strictly above the threshold. */
  function Bit(v: real, threshold: int): int {
    if v > threshold as real then 1 else 0
  }

  /** Number of intensities strictly above the threshold. */
  function CountAbove(s: seq<real>, threshold: int): (c: nat)
    ensures c <= |s|
  {
    if s == [] then 0 else CountAbove(s[..|s| - 1], threshold) + Bit(s[|s| - 1], threshold)
  }

  /** Set cells among the first b columns of row i. */
  function RowCount(g: seq<real>, n: nat, t: int, i: nat, b: nat): (c: nat)
    requires |g| == n * n && i < n && b <= n
    ensures c <= b
  {
    if b == 0 then 0
    else
      CellInGrid(i, b - 1, n);
      RowCount(g, n, t, i, b - 1) + Bit(g[i * n + b - 1], t)
  }

  /** Set cells among the first b rows of column j, read at j + n*row as the column pass does. */
  function ColCount(g: seq<real>, n: nat, t: int, j: nat, b: nat): (c: nat)
    requires |g| == n * n && j < n && b <= n
    ensures c <= b
  {
    if b == 0 then 0
    else
      CellInGrid(b - 1, j, n);
      ColCount(g, n, t, j, b - 1) + Bit(g[j + n * (b - 1)], t)
  }

  /** Set cells in the first r rows. */
  function RowTotal(g: seq<real>, n: nat, t: int, r: nat): nat
    requires |g| == n * n && r <= n
  {
    if r == 0 then 0 else RowTotal(g, n, t, r - 1) + RowCount(g, n, t, r - 1, n)
  }

  /** Set cells in the first c columns, counting only the first `rows` rows. */
  function ColTotal(g: seq<real>, n: nat, t: int, c: nat, rows: nat): nat
    requires |g| == n * n && c <= n && rows <= n
  {
    if c == 0 then 0 else ColTotal(g, n, t, c - 1, rows) + ColCount(g, n, t, c - 1, rows)
  }

  /** By over the first r rows: the sum of (set cells in row i) * i. */
  function RowMoment(g: seq<real>, n: nat, t: int, r: nat): nat
    requires |g| == n * n && r <= n
  {
    if r == 0 then 0
    else
      MulNat(RowCount(g, n, t, r - 1, n), r - 1);
      RowMoment(g, n, t, r - 1) + RowCount(g, n, t, r - 1, n) * (r - 1)
  }

  /** Bx over the first c columns: the sum of (set cells in column j) * j. */
  function ColMoment(g: seq<real>, n: nat, t: int, c: nat): nat
    requires |g| == n * n && c <= n
  {
    if c == 0 then 0
    else
      MulNat(ColCount(g, n, t, c - 1, n), c - 1);
      ColMoment(g, n, t, c - 1) + ColCount(g, n, t, c - 1, n) * (c - 1)
  }

  /** Extending a prefix by one cell adds that cell's bit to the count. */
  lemma CountPrefixStep(s: seq<real>, k: nat, t: int)
    requires 0 < k <= |s|
    ensures CountAbove(s[..k], t) == CountAbove(s[..k - 1], t) + Bit(s[k - 1], t)
  {
    assert s[..k][..k - 1] == s[..k - 1];
  }

  /** Within row i, which starts at cell `start`, the count grows by the row's first b bits. */
  lemma {:induction false} CountWithinRow(g: seq<real>, n: nat, t: int, i: nat, b: nat, start: nat)
    requires |g| == n * n && i < n && b <= n
    requires start == i * n && start + n <= |g|
    ensures CountAbove(g[..start + b], t) == CountAbove(g[..start], t) + RowCount(g, n, t, i, b)
  {
    if b > 0 {
      CountWithinRow(g, n, t, i, b - 1, start);
      CountPrefixStep(g, start + b, t);
    }
  }

  /** The first i rows of the flat row-major grid hold RowTotal(i) set cells. */
  lemma {:induction false} CountByRows(g: seq<real>, n: nat, t: int, i: nat)
    requires |g| == n * n && i <= n
    ensures i * n <= |g|
    ensures CountAbove(g[..i * n], t) == RowTotal(g, n, t, i)
  {
    if i > 0 {
      CountByRows(g, n, t, i - 1);
      MulDistributes(i - 1, 1, n);
      MulMono(i, n, n);
      CountWithinRow(g, n, t, i - 1, n, (i - 1) * n);
    }
  }

  /** The number of set cells is the sum of the row counts. */
  lemma CountIsRowTotal(g: seq<real>, n: nat, t: int)
    requires |g| == n * n
    ensures CountAbove(g, t) == RowTotal(g, n, t, n)
  {
    CountByRows(g, n, t, n);
    assert g[..n * n] == g;
  }

  /** Adding row `rows` to every column count adds that row's count to the column total. */
  lemma {:induction false} ColTotalStep(g: seq<real>, n: nat, t: int, c: nat, rows: nat)
    requires |g| == n * n && c <= n && rows < n
    ensures ColTotal(g, n, t, c, rows + 1) == ColTotal(g, n, t, c, rows) + RowCount(g, n, t, rows, c)
  {
    if c > 0 {
      ColTotalStep(g, n, t, c - 1, rows);
      assert c - 1 + n * rows == rows * n + c - 1;
    }
  }

  /** Counting by columns and counting by rows give the same total. */
  lemma {:induction false} ColumnsMatchRows(g: seq<real>, n: nat, t: int, rows: nat)
    requires |g| == n * n && rows <= n
    ensures ColTotal(g, n, t, n, rows) == RowTotal(g, n, t, rows)
  {
    if rows == 0 {
      ColTotalNoRows(g, n, t, n);
    } else {
      ColumnsMatchRows(g, n, t, rows - 1);
      ColTotalStep(g, n, t, n, rows - 1);
    }
  }

  /** With no rows counted every column is empty. */
  lemma {:induction false} ColTotalNoRows(g: seq<real>, n: nat, t: int, c: nat)
    requires |g| == n * n && c <= n
    ensures ColTotal(g, n, t, c, 0) == 0
  {
    if c > 0 {
      ColTotalNoRows(g, n, t, c - 1);
    }
  }

  /** Adding cnt cells at index idx <= top keeps a moment within total * top. */
  lemma MomentStep(moment: int, total: int, cnt: nat, idx: nat, top: nat)
    requires moment <= total * top && idx <= top
    ensures moment + cnt * idx <= (total + cnt) * top
  {
    MulMono(idx, top, cnt);
    MulDistributes(total, cnt, top);
  }

  /** Each set cell contributes a row index of at most n-1 to By. */
  lemma {:induction false} RowMomentBound(g: seq<real>, n: nat, t: int, r: nat)
    requires |g| == n * n && 0 < n && r <= n
    ensures RowMoment(g, n, t, r) <= RowTotal(g, n, t, r) * (n - 1)
  {
    if r > 0 {
      RowMomentBound(g, n, t, r - 1);
      MomentStep(RowMoment(g, n, t, r - 1), RowTotal(g, n, t, r - 1), RowCount(g, n, t, r - 1, n), r - 1, n - 1);
    }
  }

  /** Each set cell contributes a column index of at most n-1 to Bx. */
  lemma {:induction false} ColMomentBound(g: seq<real>, n: nat, t: int, c: nat)
    requires |g| == n * n && 0 < n && c <= n
    ensures ColMoment(g, n, t, c) <= ColTotal(g, n, t, c, n) * (n - 1)
  {
    if c > 0 {
      ColMomentBound(g, n, t, c - 1);
      MomentStep(ColMoment(g, n, t, c - 1), ColTotal(g, n, t, c - 1, n), ColCount(g, n, t, c - 1, n), c - 1, n - 1);
    }
  }

  /** Both marginal sums lie in [0, N*(boxdims-1)], N being the number of set cells. */
  lemma MomentBounds(g: seq<real>, n: nat, t: int)
    requires |g| == n * n && 0 < n
    ensures RowMoment(g, n, t, n) <= CountAbove(g, t) * (n - 1)
    ensures ColMoment(g, n, t, n) <= CountAbove(g, t) * (n - 1)
  {
    CountIsRowTotal(g, n, t);
    ColumnsMatchRows(g, n, t, n);
    RowMomentBound(g, n, t, n);
    ColMomentBound(g, n, t, n);
  }

  /** A mean of naturals in [0, m] lies in [0, m]. */
  lemma MeanBound(total: nat, count: nat, m: nat)
    requires count > 0 && total <= count * m
    ensures 0.0 <= total as real / count as real <= m as real
  {
    var a, c := total as real, count as real;
    assert (count * m) as real == c * m as real;
    if a / c > m as real {
      assert (a / c) * c == a;
      MulOrder(m as real, a / c, c);
      assert false;
    }
  }

  /** Every mask cell holds the bit of its grid cell. */
  ghost predicate IsMask(mask: array<int>, g: seq<real>, threshold: int)
    reads mask
  {
    mask.Length == |g| && forall k :: 0 <= k < |g| ==> mask[k] == Bit(g[k], threshold)
  }

  /**
   * The inner loop of the first pass of centroid over row ii: sets the mask
   * of each of the row's cells and counts the set ones in rowcounter and in
   * the running total.
   */
  method MaskRow(g: seq<real>, n: nat, threshold: int, mask: array<int>, ii: nat, ghost rowStart: nat, count0: nat)
      returns (count: nat, rowcounter: nat)
    requires |g| == n * n && mask.Length == |g| && ii < n
    requires rowStart == ii * n && rowStart + n <= |g|
    requires count0 == CountAbove(g[..rowStart], threshold)
    requires forall k :: 0 <= k < rowStart ==> mask[k] == Bit(g[k], threshold)
    modifies mask
    ensures count == CountAbove(g[..rowStart + n], threshold)
    ensures rowcounter == RowCount(g, n, threshold, ii, n)
    ensures forall k :: 0 <= k < rowStart + n ==> mask[k] == Bit(g[k], threshold)
  {
    count, rowcounter := count0, 0;
    var b := 0;
    while b < n
      invariant 0 <= b <= n
      invariant rowcounter == RowCount(g, n, threshold, ii, b)
      invariant count == CountAbove(g[..rowStart + b], threshold)
      invariant forall k :: 0 <= k < rowStart + b ==> mask[k] == Bit(g[k], threshold)
    {
      assert g[..rowStart + b + 1][..rowStart + b] == g[..rowStart + b];
      if g[ii * n + b] > threshold as real {
        mask[ii * n + b] := 1;
        count := count + 1;
        rowcounter := rowcounter + 1;
      } else {
        mask[ii * n + b] := 0;
      }
      b := b + 1;
    }
  }

  /**
   * First pass of centroid: writes the 0/1 mask into a fresh buffer, counts
   * the set cells (pixelmaskcounter) and sums rowcounter * row into By.
   */
  method MaskRows(g: seq<real>, n: nat, threshold: int) returns (mask: array<int>, count: nat, yMoment: nat)
    requires |g| == n * n
    ensures fresh(mask) && IsMask(mask, g, threshold)
    ensures count == CountAbove(g, threshold)
    ensures yMoment == RowMoment(g, n, threshold, n)
  {
    mask := new int[|g|];
    count, yMoment := 0, 0;
    var ii := 0;
    ghost var rowStart := 0;  // ii * n, the index of the row's first cell
    while ii < n
      invariant 0 <= ii <= n
      invariant rowStart == ii * n && rowStart <= |g|
      invariant count == CountAbove(g[..rowStart], threshold)
      invariant yMoment == RowMoment(g, n, threshold, ii)
      invariant forall k :: 0 <= k < rowStart ==> mask[k] == Bit(g[k], threshold)
    {
      var rowcounter;
      MulDistributes(ii, 1, n);
      MulMono(ii + 1, n, n);
      count, rowcounter := MaskRow(g, n, threshold, mask, ii, rowStart, count);
      MulNat(rowcounter, ii);
      yMoment := yMoment + rowcounter * ii;
      rowStart := rowStart + n;
      ii := ii + 1;
    }
    assert g[..rowStart] == g;
  }

  /**
   * Second pass of centroid: counts the set mask cells of each column, read
   * at ii + boxdims*b, and sums colcounter * column into Bx.
   */
  method MaskColumns(mask: array<int>, ghost g: seq<real>, n: nat, ghost threshold: int) returns (xMoment: nat)
    requires |g| == n * n && IsMask(mask, g, threshold)
    ensures xMoment == ColMoment(g, n, threshold, n)
  {
    xMoment := 0;
    var ii := 0;
    while ii < n
      invariant 0 <= ii <= n
      invariant xMoment == ColMoment(g, n, threshold, ii)
    {
      var colcounter := 0;
      var b := 0;
      while b < n
        invariant 0 <= b <= n
        invariant colcounter == ColCount(g, n, threshold, ii, b)
      {
        CellInGrid(b, ii, n);
        if mask[ii + n * b] == 1 {
          colcounter := colcounter + 1;
        }
        b := b + 1;
      }
      MulNat(colcounter, ii);
      xMoment := xMoment + colcounter * ii;
      ii := ii + 1;
    }
  }

  /**
   * centroid: thresholds the cutout into a mask, counts the set cells, builds
   * By over the rows and Bx over the columns of the mask, and returns
   * (Bx/N + xpos - boxdims/2, By/N + ypos - boxdims/2). With no set cell the
   * C code divides 0 by 0; here that is NoSourceDetected.
   */
  method Centroid(cut: Cutout, threshold: int) returns (r: Result<Point>)
    requires cut.Valid()
    ensures r.Err? <==> CountAbove(cut.pixels, threshold) == 0
    ensures r.Err? ==> r.error == NoSourceDetected
    ensures r.Ok? ==>
      var g, n := cut.pixels, cut.boxdims;
      var count := CountAbove(g, threshold) as real;
      && r.value.x == ColMoment(g, n, threshold, n) as real / count + FrameCoord(0, cut.xpos, n) as real
      && r.value.y == RowMoment(g, n, threshold, n) as real / count + FrameCoord(0, cut.ypos, n) as real
    ensures r.Ok? ==>
      && FrameCoord(0, cut.xpos, cut.boxdims) as real <= r.value.x <= FrameCoord(cut.boxdims - 1, cut.xpos, cut.boxdims) as real
      && FrameCoord(0, cut.ypos, cut.boxdims) as real <= r.value.y <= FrameCoord(cut.boxdims - 1, cut.ypos, cut.boxdims) as real
  {
    var g, n := cut.pixels, cut.boxdims;
    var mask, count, yMoment := MaskRows(g, n, threshold);
    var xMoment := MaskColumns(mask, g, n, threshold);
    if count == 0 {
      r := Err(NoSourceDetected);
    } else {
      MomentBounds(g, n, threshold);
      MeanBound(xMoment, count, n - 1);
      MeanBound(yMoment, count, n - 1);
      var x := xMoment as real / count as real + FrameCoord(0, cut.xpos, n) as real;
      var y := yMoment as real / count as real + FrameCoord(0, cut.ypos, n) as real;
      r := Ok(Point(x, y));
    }
  }
}
