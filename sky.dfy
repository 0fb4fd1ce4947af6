/**
 * Sky background estimation (skybackground in centroid.c): the raw values of
 * the cells lying wholly inside a ring around the centre are collected in
 * row-major order, sorted with compare_doubles, and their median is the sky
 * level per pixel.
 */
module SkyBackgroundEstimator {
  import opened Outcomes
  import opened Geometry
  import opened Ordering

  /** Inner radius of the sky ring: annulus = radius + 10. */
  function Annulus(radius: real): real {
    radius + 10.0
  }

  /** Outer radius of the sky ring: dannulus = annulus + 15. */
  function Dannulus(radius: real): real {
    Annulus(radius) + 15.0
  }

  /** The box check: the outer ring must fit within half the box (boxdims/2, integer division). */
  predicate BoxTooSmallFor(radius: real, boxdims: nat) {
    Dannulus(radius) > (boxdims / 2) as real
  }

  /** The ring test annulus+0.5 < dist < dannulus-0.5, decided on d2 = dist*dist. */
  predicate InRing(d2: real, radius: real) {
    Below(d2, Dannulus(radius) - 0.5) && Beyond(d2, Annulus(radius) + 0.5)
  }

  /** For every distance, the squared ring test agrees with the test on the distance itself. */
  lemma RingTestAgrees(d: real, radius: real)
    requires d >= 0.0
    ensures InRing(d * d, radius) <==> Annulus(radius) + 0.5 < d < Dannulus(radius) - 0.5
  {
    SqrtFree(d, Dannulus(radius) - 0.5);
    SqrtFree(d, Annulus(radius) + 0.5);
  }

  /** Whether the cell at row i, column j lies strictly inside the ring around c. */
  predicate CellInRing(cut: Cutout, c: Point, radius: real, i: int, j: int) {
    InRing(CellSquaredDistance(cut, c, i, j), radius)
  }

  /** Raw values of the ring cells among the first b columns of row i, in column order. */
  function RowSamples(cut: Cutout, c: Point, radius: real, i: nat, b: nat): (s: seq<real>)
    requires cut.Valid() && i < cut.boxdims && b <= cut.boxdims
    ensures |s| <= b
  {
    if b == 0 then []
    else
      RowSamples(cut, c, radius, i, b - 1)
        + (if CellInRing(cut, c, radius, i, b - 1) then [Pixel(cut, i, b - 1)] else [])
  }

  /** Raw values of the ring cells among the first r rows, in row-major order; at most r*boxdims of them. */
  function RingSamples(cut: Cutout, c: Point, radius: real, r: nat): (s: seq<real>)
    requires cut.Valid() && r <= cut.boxdims
    ensures |s| <= r * cut.boxdims
  {
    if r == 0 then []
    else
      MulDistributes(r - 1, 1, cut.boxdims);
      RingSamples(cut, c, radius, r - 1) + RowSamples(cut, c, radius, r - 1, cut.boxdims)
  }

  /** Every sample of row i is the raw value of a ring cell of that row. */
  lemma {:induction false} RowSamplesSound(cut: Cutout, c: Point, radius: real, i: nat, b: nat)
    requires cut.Valid() && i < cut.boxdims && b <= cut.boxdims
    ensures forall v :: v in RowSamples(cut, c, radius, i, b) ==>
      exists j :: 0 <= j < b && CellInRing(cut, c, radius, i, j) && Pixel(cut, i, j) == v
  {
    if b > 0 {
      RowSamplesSound(cut, c, radius, i, b - 1);
    }
  }

  /** Every ring cell of row i contributes its raw value to the samples. */
  lemma {:induction false} RowSamplesComplete(cut: Cutout, c: Point, radius: real, i: nat, b: nat)
    requires cut.Valid() && i < cut.boxdims && b <= cut.boxdims
    ensures forall j :: 0 <= j < b && CellInRing(cut, c, radius, i, j) ==> Pixel(cut, i, j) in RowSamples(cut, c, radius, i, b)
  {
    if b > 0 {
      RowSamplesComplete(cut, c, radius, i, b - 1);
    }
  }

  /** Every sample is the raw value of a cell strictly inside the ring. */
  lemma {:induction false} RingSamplesSound(cut: Cutout, c: Point, radius: real, r: nat)
    requires cut.Valid() && r <= cut.boxdims
    ensures forall v :: v in RingSamples(cut, c, radius, r) ==>
      exists i, j :: 0 <= i < r && 0 <= j < cut.boxdims && CellInRing(cut, c, radius, i, j) && Pixel(cut, i, j) == v
  {
    if r > 0 {
      RingSamplesSound(cut, c, radius, r - 1);
      RowSamplesSound(cut, c, radius, r - 1, cut.boxdims);
    }
  }

  /** Every cell strictly inside the ring contributes its raw value to the samples. */
  lemma {:induction false} RingSamplesComplete(cut: Cutout, c: Point, radius: real, r: nat)
    requires cut.Valid() && r <= cut.boxdims
    ensures forall i, j :: 0 <= i < r && 0 <= j < cut.boxdims && CellInRing(cut, c, radius, i, j) ==>
      Pixel(cut, i, j) in RingSamples(cut, c, radius, r)
  {
    if r > 0 {
      RingSamplesComplete(cut, c, radius, r - 1);
      RowSamplesComplete(cut, c, radius, r - 1, cut.boxdims);
    }
  }

  /** The median of the samples lies between their smallest and their largest value. */
  lemma MedianWithinSamples(s: seq<real>)
    requires |s| > 0
    ensures exists i :: 0 <= i < |s| && s[i] <= Median(Sort(s))
    ensures exists i :: 0 <= i < |s| && s[i] >= Median(Sort(s))
  {
    var t := Sort(s);
    assert t[0] in multiset(s) && t[|t| - 1] in multiset(s) by {
      assert t[0] in t && t[|t| - 1] in t;
    }
    assert t[0] in s && t[|t| - 1] in s;
  }

  /**
   * The inner loop of skybackground over row ii: appends to dpix, from index
   * npix0 on, the intensity of every cell of the row that lies in the ring.
   */
  method CollectRow(c: Point, cut: Cutout, radius: real, dpix: array<real>, ii: nat, ghost rowStart: nat, npix0: nat)
      returns (npix: nat)
    requires cut.Valid() && ii < cut.boxdims && dpix.Length == |cut.pixels|
    requires rowStart == ii * cut.boxdims && rowStart + cut.boxdims <= |cut.pixels|
    requires npix0 <= rowStart && dpix[..npix0] == RingSamples(cut, c, radius, ii)
    modifies dpix
    ensures npix <= rowStart + cut.boxdims
    ensures dpix[..npix] == RingSamples(cut, c, radius, ii + 1)
  {
    var g, n := cut.pixels, cut.boxdims;
    npix := npix0;
    var b := 0;
    while b < n
      invariant 0 <= b <= n
      invariant npix <= rowStart + b
      invariant dpix[..npix] == RingSamples(cut, c, radius, ii) + RowSamples(cut, c, radius, ii, b)
    {
      var pixelxpos := b + cut.xpos - n / 2;
      var pixelypos := ii + cut.ypos - n / 2;
      var d2 := SquaredDistance(pixelxpos, pixelypos, c.x, c.y);
      if Below(d2, Dannulus(radius) - 0.5) && Beyond(d2, Annulus(radius) + 0.5) {
        dpix[npix] := g[ii * n + b];
        npix := npix + 1;
      }
      b := b + 1;
    }
  }

  /**
   * The sampling pass of skybackground: walks the grid row by row and appends
   * the raw value of every ring cell to a fresh dpix buffer, counting them in Npix.
   */
  method CollectRingSamples(c: Point, cut: Cutout, radius: real) returns (dpix: array<real>, npix: nat)
    requires cut.Valid()
    ensures fresh(dpix) && npix <= dpix.Length
    ensures dpix[..npix] == RingSamples(cut, c, radius, cut.boxdims)
  {
    var g, n := cut.pixels, cut.boxdims;
    dpix := new real[|g|];
    npix := 0;
    var ii := 0;
    ghost var rowStart := 0;  // ii * n, the index of the row's first cell
    while ii < n
      invariant 0 <= ii <= n
      invariant rowStart == ii * n && rowStart <= |g|
      invariant npix <= rowStart
      invariant dpix[..npix] == RingSamples(cut, c, radius, ii)
    {
      MulDistributes(ii, 1, n);
      MulMono(ii + 1, n, n);
      npix := CollectRow(c, cut, radius, dpix, ii, rowStart, npix);
      rowStart := rowStart + n;
      ii := ii + 1;
    }
  }

  /**
   * skybackground: rejects a box whose half-width is below dannulus, collects
   * the ring samples into dpix in row-major order, sorts them in place and
   * returns their median (the mean of the two central samples for an even
   * count). With no sample the C code reads dpix[-1]; here that is EmptyAnnulus.
   */
  method SkyBackground(c: Point, cut: Cutout, radius: real) returns (r: Result<real>)
    requires cut.Valid()
    ensures r == Err(BoxTooSmall) <==> BoxTooSmallFor(radius, cut.boxdims)
    ensures r == Err(EmptyAnnulus) <==>
      !BoxTooSmallFor(radius, cut.boxdims) && RingSamples(cut, c, radius, cut.boxdims) == []
    ensures r.Ok? <==> !BoxTooSmallFor(radius, cut.boxdims) && RingSamples(cut, c, radius, cut.boxdims) != []
    ensures r.Ok? ==> r.value == Median(Sort(RingSamples(cut, c, radius, cut.boxdims)))
  {
    if Dannulus(radius) > (cut.boxdims / 2) as real {
      return Err(BoxTooSmall);
    }
    var dpix, npix := CollectRingSamples(c, cut, radius);
    if npix == 0 {
      return Err(EmptyAnnulus);
    }
    ghost var samples := dpix[..npix];
    SortPrefix(dpix, npix);
    ghost var sorted := dpix[..npix];
    SortedUnique(sorted, Sort(samples));
    var median := MedianOfSorted(dpix, npix);
    r := Ok(median);
  }

  /** The median read off the sorted prefix of dpix, as skybackground does after qsort. */
  method MedianOfSorted(dpix: array<real>, npix: nat) returns (median: real)
    requires 0 < npix <= dpix.Length && Sorted(dpix[..npix])
    ensures median == Median(dpix[..npix])
  {
    if npix % 2 == 0 {
      median := (dpix[npix / 2 - 1] + dpix[npix / 2]) / 2.0;
    } else {
      median := dpix[(npix + 1) / 2 - 1];
    }
  }
}
