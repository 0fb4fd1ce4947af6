/**
 * Aperture photometry (calc_magnitude in centroid.c, up to the sky-subtracted
 * intensity I): every cell is weighted by its distance from the centre, the
 * weights are counted into Npix and the weighted intensities summed into S,
 * and I = S - skyB * Npix.
 *
 * The C code assigns the weight to an `int`, so the half weight on the
 * aperture edge and the partial weight of a boundary cell are truncated: the
 * weight is 1 for dist <= radius - 0.5 and 0 otherwise (MaskWeight). The
 * fractional weight the comments describe is CoverageWeight.
 */
module AperturePhotometer {
  import opened Outcomes
  import opened Geometry

  /** C's conversion of a double to an int: truncation toward zero. */
  function TruncToInt(x: real): (k: int)
    ensures 0.0 <= x ==> 0 <= k && k as real <= x < k as real + 1.0
    ensures x < 0.0 ==> k <= 0 && k as real - 1.0 < x <= k as real
  {
    if x >= 0.0 then x.Floor else -((-x).Floor)
  }

  /**
   * The weight of a cell at distance d as the code computes it: the cascade
   * (0.5 on the edge, 1 inside, 0 outside, radius + 0.5 - d in between) is
   * stored in an int.
   */
  function MaskWeight(d: real, radius: real): (w: int)
    ensures w == 1 <==> d <= radius - 0.5
    ensures w == 0 <==> d > radius - 0.5
  {
    if d == radius then TruncToInt(0.5)
    else if d < radius - 0.5 then 1
    else if d > radius + 0.5 then 0
    else TruncToInt(radius + 0.5 - d)
  }

  /**
   * The fractional weight the cascade describes: half a pixel on the edge,
   * the whole pixel inside, none outside, and radius + 0.5 - d in between.
   */
  function CoverageWeight(d: real, radius: real): (w: real)
    ensures 0.0 <= w <= 1.0
    ensures w == 1.0 <==> d <= radius - 0.5
    ensures w == 0.0 <==> d >= radius + 0.5
  {
    if d == radius then 0.5
    else if d < radius - 0.5 then 1.0
    else if d > radius + 0.5 then 0.0
    else radius + 0.5 - d
  }

  /** The fractional weight falls off with distance: a farther cell never weighs more. */
  lemma CoverageNonincreasing(d1: real, d2: real, radius: real)
    requires d1 <= d2
    ensures CoverageWeight(d2, radius) <= CoverageWeight(d1, radius)
  {
  }

  /**
   * The truncated weight never exceeds the fractional one, and they differ
   * exactly on the cells strictly between radius - 0.5 and radius + 0.5.
   */
  lemma MaskUndercounts(d: real, radius: real)
    ensures MaskWeight(d, radius) as real <= CoverageWeight(d, radius)
    ensures MaskWeight(d, radius) as real == CoverageWeight(d, radius) <==> d <= radius - 0.5 || d >= radius + 0.5
  {
  }

  /** A cell right on the aperture edge (dist == radius == 3) gets weight 0, not the half the code intends. */
  lemma EdgeCellDropped()
    ensures MaskWeight(3.0, 3.0) == 0
    ensures CoverageWeight(3.0, 3.0) == 0.5
  {
  }

  /** The weight as written, decided on the squared distance d2. */
  function CellWeight(d2: real, radius: real): int {
    if AtMost(d2, radius - 0.5) then 1 else 0
  }

  /** For every distance, the squared-distance weight is the weight the code computes. */
  lemma CellWeightAgrees(d: real, radius: real)
    requires d >= 0.0
    ensures CellWeight(d * d, radius) == MaskWeight(d, radius)
  {
    SqrtFree(d, radius - 0.5);
  }

  /** A larger aperture never lowers a cell's weight. */
  lemma CellWeightGrows(d2: real, r1: real, r2: real)
    requires r1 <= r2
    ensures CellWeight(d2, r1) <= CellWeight(d2, r2)
  {
    if AtMost(d2, r1 - 0.5) {
      AtMostMonotone(d2, r1 - 0.5, r2 - 0.5);
    }
  }

  /** Weight of the cell at row i, column j. */
  function Weight(cut: Cutout, c: Point, radius: real, i: int, j: int): int {
    CellWeight(CellSquaredDistance(cut, c, i, j), radius)
  }

  /** Every weight is 0 or 1. */
  predicate Bits(ws: seq<int>) {
    forall k :: 0 <= k < |ws| ==> ws[k] == 0 || ws[k] == 1
  }

  /** Weights of the first b cells of row i, in column order. */
  function RowWeights(cut: Cutout, c: Point, radius: real, i: nat, b: nat): (ws: seq<int>)
    ensures |ws| == b && Bits(ws)
  {
    if b == 0 then [] else RowWeights(cut, c, radius, i, b - 1) + [Weight(cut, c, radius, i, b - 1)]
  }

  /** Weights of the first r rows, row after row. */
  function WeightRows(cut: Cutout, c: Point, radius: real, r: nat): (ws: seq<int>)
    ensures |ws| == r * cut.boxdims && Bits(ws)
  {
    if r == 0 then []
    else
      MulDistributes(r - 1, 1, cut.boxdims);
      WeightRows(cut, c, radius, r - 1) + RowWeights(cut, c, radius, r - 1, cut.boxdims)
  }

  /**
   * The weight of every cell in row-major order: the mask that the unused
   * bpix buffer of calc_magnitude would hold.
   */
  function WeightGrid(cut: Cutout, c: Point, radius: real): (ws: seq<int>)
    requires cut.Valid()
    ensures |ws| == |cut.pixels| && Bits(ws)
  {
    WeightRows(cut, c, radius, cut.boxdims)
  }

  /** Cell j of a row's weights is the weight of column j. */
  lemma {:induction false} RowWeightAt(cut: Cutout, c: Point, radius: real, i: nat, b: nat, j: nat)
    requires j < b
    ensures RowWeights(cut, c, radius, i, b)[j] == Weight(cut, c, radius, i, j)
  {
    if j < b - 1 {
      RowWeightAt(cut, c, radius, i, b - 1, j);
    }
  }

  /** The weight grid holds the weight of row i, column j at index i * boxdims + j. */
  lemma {:induction false} WeightAt(cut: Cutout, c: Point, radius: real, r: nat, i: nat, j: nat)
    requires i < r && j < cut.boxdims
    ensures i * cut.boxdims + j < |WeightRows(cut, c, radius, r)|
    ensures WeightRows(cut, c, radius, r)[i * cut.boxdims + j] == Weight(cut, c, radius, i, j)
  {
    var n := cut.boxdims;
    MulMono(i + 1, r, n);
    MulDistributes(i, 1, n);
    if i < r - 1 {
      WeightAt(cut, c, radius, r - 1, i, j);
    } else {
      RowWeightAt(cut, c, radius, i, n, j);
    }
  }

  /** Appending one cell adds its weight to Npix and its weighted intensity to S. */
  lemma SumsAppend(vs: seq<real>, ws: seq<int>, v: real, w: int)
    requires |vs| == |ws|
    ensures Area(ws + [w]) == Area(ws) + w as real
    ensures Flux(vs + [v], ws + [w]) == Flux(vs, ws) + (if w == 1 then v else 0.0)
  {
    assert (ws + [w])[..|ws|] == ws;
    assert (vs + [v])[..|vs|] == vs;
  }

  /** Npix: the sum of the weights. */
  function Area(ws: seq<int>): real {
    if ws == [] then 0.0 else Area(ws[..|ws| - 1]) + ws[|ws| - 1] as real
  }

  /** S: the sum of the intensities of the cells whose weight is 1. */
  function Flux(vs: seq<real>, ws: seq<int>): real
    requires |vs| == |ws|
  {
    if ws == [] then 0.0
    else Flux(vs[..|vs| - 1], ws[..|ws| - 1]) + (if ws[|ws| - 1] == 1 then vs[|vs| - 1] else 0.0)
  }

  /** The excess over the sky level skyB, summed over the cells whose weight is 1. */
  function Excess(vs: seq<real>, ws: seq<int>, skyB: real): real
    requires |vs| == |ws|
  {
    if ws == [] then 0.0
    else Excess(vs[..|vs| - 1], ws[..|ws| - 1], skyB) + (if ws[|ws| - 1] == 1 then vs[|vs| - 1] - skyB else 0.0)
  }

  /** Multiplying by a 0/1 weight keeps the value or drops it. */
  lemma ScaleByBit(v: real, w: int)
    requires w == 0 || w == 1
    ensures v * w as real == if w == 1 then v else 0.0
  {
    if w == 1 {
      assert w as real == 1.0;
    } else {
      assert w as real == 0.0;
    }
  }

  /** Npix counts whole pixels: it lies between 0 and the number of cells. */
  lemma {:induction false} AreaBound(ws: seq<int>)
    requires Bits(ws)
    ensures 0.0 <= Area(ws) <= |ws| as real
  {
    if ws != [] {
      AreaBound(ws[..|ws| - 1]);
    }
  }

  /** Adding partial sums of S, Npix and I: S - skyB * Npix stays the sum of the excesses. */
  lemma NetAdds(flux: real, area: real, excess: real, dFlux: real, dArea: real, dExcess: real, skyB: real, total: real)
    requires flux - skyB * area == excess
    requires dFlux - skyB * dArea == dExcess
    requires total == area + dArea
    ensures (flux + dFlux) - skyB * total == excess + dExcess
  {
    assert skyB * (area + dArea) == skyB * area + skyB * dArea;
  }

  /** I = S - skyB * Npix is the sum, over the counted cells, of their excess over the sky. */
  lemma {:induction false} NetIsExcess(vs: seq<real>, ws: seq<int>, skyB: real)
    requires |vs| == |ws| && Bits(ws)
    ensures Flux(vs, ws) - skyB * Area(ws) == Excess(vs, ws, skyB)
  {
    if ws != [] {
      var k := |ws| - 1;
      NetIsExcess(vs[..k], ws[..k], skyB);
      var w := ws[k];
      var dFlux, dExcess := if w == 1 then vs[k] else 0.0, if w == 1 then vs[k] - skyB else 0.0;
      if w == 1 {
        assert w as real == 1.0 && skyB * (w as real) == skyB;
      } else {
        assert w as real == 0.0 && skyB * (w as real) == 0.0;
      }
      NetAdds(Flux(vs[..k], ws[..k]), Area(ws[..k]), Excess(vs[..k], ws[..k], skyB), dFlux, w as real, dExcess, skyB, Area(ws));
    }
  }

  /** Given Npix and S as summed, S - skyB * Npix is the summed excess. */
  lemma NetOfSums(vs: seq<real>, ws: seq<int>, skyB: real, npix: real, s: real)
    requires |vs| == |ws| && Bits(ws)
    requires npix == Area(ws) && s == Flux(vs, ws)
    ensures s - skyB * npix == Excess(vs, ws, skyB)
  {
    NetIsExcess(vs, ws, skyB);
  }

  /** Raising weights cell by cell never lowers Npix. */
  lemma {:induction false} AreaMonotone(ws1: seq<int>, ws2: seq<int>)
    requires |ws1| == |ws2|
    requires forall k :: 0 <= k < |ws1| ==> ws1[k] <= ws2[k]
    ensures Area(ws1) <= Area(ws2)
  {
    if ws1 != [] {
      AreaMonotone(ws1[..|ws1| - 1], ws2[..|ws2| - 1]);
    }
  }

  /** Raising 0/1 weights cell by cell never lowers I when no cell is below the sky level. */
  lemma {:induction false} ExcessMonotone(vs: seq<real>, ws1: seq<int>, ws2: seq<int>, skyB: real)
    requires |vs| == |ws1| == |ws2| && Bits(ws1) && Bits(ws2)
    requires forall k :: 0 <= k < |ws1| ==> ws1[k] <= ws2[k]
    requires forall k :: 0 <= k < |vs| ==> vs[k] >= skyB
    ensures Excess(vs, ws1, skyB) <= Excess(vs, ws2, skyB)
  {
    if ws1 != [] {
      var k := |ws1| - 1;
      ExcessMonotone(vs[..k], ws1[..k], ws2[..k], skyB);
    }
  }

  /** Within a row, a larger aperture never lowers the weight of any cell. */
  lemma {:induction false} RowWeightsGrow(cut: Cutout, c: Point, r1: real, r2: real, i: nat, b: nat)
    requires r1 <= r2
    ensures forall k :: 0 <= k < b ==> RowWeights(cut, c, r1, i, b)[k] <= RowWeights(cut, c, r2, i, b)[k]
  {
    if b > 0 {
      RowWeightsGrow(cut, c, r1, r2, i, b - 1);
      CellWeightGrows(CellSquaredDistance(cut, c, i, b - 1), r1, r2);
    }
  }

  /** A larger aperture never lowers the weight of any cell. */
  lemma {:induction false} WeightsGrow(cut: Cutout, c: Point, r1: real, r2: real, r: nat)
    requires r1 <= r2
    ensures forall k :: 0 <= k < |WeightRows(cut, c, r1, r)| ==> WeightRows(cut, c, r1, r)[k] <= WeightRows(cut, c, r2, r)[k]
  {
    if r > 0 {
      WeightsGrow(cut, c, r1, r2, r - 1);
      RowWeightsGrow(cut, c, r1, r2, r - 1, cut.boxdims);
    }
  }

  /**
   * The growth curve: a larger aperture counts at least as many pixels, and,
   * when no cell is below the sky level, never lowers the net intensity I.
   */
  lemma ApertureGrows(cut: Cutout, c: Point, r1: real, r2: real, skyB: real)
    requires cut.Valid() && r1 <= r2
    ensures Area(WeightGrid(cut, c, r1)) <= Area(WeightGrid(cut, c, r2))
    ensures (forall k :: 0 <= k < |cut.pixels| ==> cut.pixels[k] >= skyB) ==>
      Excess(cut.pixels, WeightGrid(cut, c, r1), skyB) <= Excess(cut.pixels, WeightGrid(cut, c, r2), skyB)
  {
    WeightsGrow(cut, c, r1, r2, cut.boxdims);
    AreaMonotone(WeightGrid(cut, c, r1), WeightGrid(cut, c, r2));
    if forall k :: 0 <= k < |cut.pixels| ==> cut.pixels[k] >= skyB {
      ExcessMonotone(cut.pixels, WeightGrid(cut, c, r1), WeightGrid(cut, c, r2), skyB);
    }
  }

  /** The result of calc_magnitude up to I: the pixel count Npix, the sum S and the net intensity I. */
  datatype Aperture = Aperture(npix: real, s: real, i: real)

  /**
   * Npix += mask; S += value * mask: adds one cell of 0/1 weight to the
   * running sums over the cells before it.
   */
  method AddCell(npix0: real, s0: real, v: real, mask: int, ghost vs: seq<real>, ghost ws: seq<int>) returns (npix: real, s: real)
    requires |vs| == |ws| && (mask == 0 || mask == 1)
    requires npix0 == Area(ws) && s0 == Flux(vs, ws)
    ensures npix == Area(ws + [mask]) && s == Flux(vs + [v], ws + [mask])
  {
    SumsAppend(vs, ws, v, mask);
    ScaleByBit(v, mask);
    npix := npix0 + mask as real;
    s := s0 + v * mask as real;
  }

  /**
   * The body of the accumulation loops of calc_magnitude for row ii, column b:
   * the pixel's frame position, its distance from the centre, its mask, and
   * the updates of Npix and S.
   */
  method ApertureCell(c: Point, cut: Cutout, radius: real, ii: nat, b: nat, ghost rowStart: nat,
                      npix0: real, s0: real, ghost done: seq<int>) returns (npix: real, s: real)
    requires cut.Valid() && ii < cut.boxdims && b < cut.boxdims
    requires rowStart == ii * cut.boxdims && rowStart + cut.boxdims <= |cut.pixels| && |done| == rowStart
    requires npix0 == Area(done + RowWeights(cut, c, radius, ii, b))
    requires s0 == Flux(cut.pixels[..rowStart + b], done + RowWeights(cut, c, radius, ii, b))
    ensures npix == Area(done + RowWeights(cut, c, radius, ii, b + 1))
    ensures s == Flux(cut.pixels[..rowStart + b + 1], done + RowWeights(cut, c, radius, ii, b + 1))
  {
    var g, n := cut.pixels, cut.boxdims;
    var pixelxpos := b + cut.xpos - n / 2;
    var pixelypos := ii + cut.ypos - n / 2;
    var d2 := SquaredDistance(pixelxpos, pixelypos, c.x, c.y);
    var mask := if AtMost(d2, radius - 0.5) then 1 else 0;
    assert mask == Weight(cut, c, radius, ii, b);
    assert done + RowWeights(cut, c, radius, ii, b + 1) == (done + RowWeights(cut, c, radius, ii, b)) + [mask];
    assert g[..rowStart + b + 1] == g[..rowStart + b] + [g[ii * n + b]];
    npix, s := AddCell(npix0, s0, g[ii * n + b], mask, g[..rowStart + b], done + RowWeights(cut, c, radius, ii, b));
  }

  /**
   * One row of the accumulation loops of calc_magnitude: weights each cell of
   * row ii by its distance from the centre and adds the weight to Npix and
   * the weighted intensity to S.
   */
  method AccumulateRow(c: Point, cut: Cutout, radius: real, ii: nat, ghost rowStart: nat, npix0: real, s0: real)
    returns (npix: real, s: real)
    requires cut.Valid() && ii < cut.boxdims
    requires rowStart == ii * cut.boxdims && rowStart + cut.boxdims <= |cut.pixels|
    requires npix0 == Area(WeightRows(cut, c, radius, ii))
    requires s0 == Flux(cut.pixels[..rowStart], WeightRows(cut, c, radius, ii))
    ensures npix == Area(WeightRows(cut, c, radius, ii + 1))
    ensures s == Flux(cut.pixels[..rowStart + cut.boxdims], WeightRows(cut, c, radius, ii + 1))
  {
    var g, n := cut.pixels, cut.boxdims;
    ghost var done := WeightRows(cut, c, radius, ii);
    npix, s := npix0, s0;
    var b := 0;
    assert done + RowWeights(cut, c, radius, ii, 0) == done;
    while b < n
      invariant 0 <= b <= n && rowStart + b <= |g|
      invariant npix == Area(done + RowWeights(cut, c, radius, ii, b))
      invariant s == Flux(g[..rowStart + b], done + RowWeights(cut, c, radius, ii, b))
    {
      npix, s := ApertureCell(c, cut, radius, ii, b, rowStart, npix, s, done);
      b := b + 1;
    }
  }

  /**
   * The accumulation loops of calc_magnitude: Npix and S over the whole grid,
   * row by row.
   */
  method Accumulate(c: Point, cut: Cutout, radius: real) returns (npix: real, s: real)
    requires cut.Valid()
    ensures npix == Area(WeightGrid(cut, c, radius))
    ensures s == Flux(cut.pixels, WeightGrid(cut, c, radius))
  {
    var n := cut.boxdims;
    npix, s := 0.0, 0.0;
    var ii := 0;
    ghost var rowStart := 0;  // ii * n, the index of the row's first cell
    while ii < n
      invariant 0 <= ii <= n
      invariant rowStart == ii * n && rowStart <= |cut.pixels|
      invariant npix == Area(WeightRows(cut, c, radius, ii))
      invariant s == Flux(cut.pixels[..rowStart], WeightRows(cut, c, radius, ii))
    {
      MulDistributes(ii, 1, n);
      MulMono(ii + 1, n, n);
      npix, s := AccumulateRow(c, cut, radius, ii, rowStart, npix, s);
      rowStart := rowStart + n;
      ii := ii + 1;
    }
    assert cut.pixels[..rowStart] == cut.pixels;
  }

  /**
   * calc_magnitude up to I: accumulates Npix and S, then subtracts the sky
   * level skyB of each counted pixel, I = S - skyB * Npix.
   */
  method CalcMagnitude(c: Point, cut: Cutout, radius: real, skyB: real) returns (a: Aperture)
    requires cut.Valid()
    ensures a.npix == Area(WeightGrid(cut, c, radius))
    ensures a.s == Flux(cut.pixels, WeightGrid(cut, c, radius))
    ensures a.i == Excess(cut.pixels, WeightGrid(cut, c, radius), skyB)
  {
    var npix, s := Accumulate(c, cut, radius);
    NetOfSums(cut.pixels, WeightGrid(cut, c, radius), skyB, npix, s);
    a := Aperture(npix, s, s - skyB * npix);
  }
}
