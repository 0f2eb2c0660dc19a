/** The row attribution of the interpolated reconstructor's cursor. After row
    `i` the source advances the row cursor when `i > 0 and i % h == 0`, so the
    new region row takes effect one image row late: row `k*h` (k >= 1) is
    still served by the centres of region row `k - 1`. For inner pixels the
    blend box is the same either way; the outer band pixels of those rows
    take the table of the region above instead of their own.

    This module states the row counter and the pixel rule with the intended
    region row `i / h` and proves that this rule gives every centre and band
    pixel its own region's table. It proves where the as-written rule agrees
    with the corrected one, and exhibits an image on which the two differ. */
module CursorFinding {
  import opened Arith
  import opened Images
  import opened Rounding
  import opened HelperFunctions
  import opened Regions
  import opened Interpolation
  import opened Adaptive
  import opened NoInterp

  /** Region row `i / h` is a row of the grid whose rows reach row `i`. */
  lemma OwnRowFits(img: Image, h: nat, w: nat, i: int, j: int)
    requires Admissible(img, h, w) && h % 2 == 0 && w % 2 == 0
    requires 0 <= i < Height(img) && 0 <= j < Width(img)
    ensures ClassifierInput(img, h, w, i / h, i, j)
  {
    PixelCell(img, h, w, i, j);
    assert i == (i / h) * h + i % h;
  }

  /** The row cursor advanced after the last row of each band of regions
      (`i % h == h - 1` in place of `i > 0 and i % h == 0`), counted in
      region rows. */
  function CorrectedRowCounter(h: nat, height: nat, i: nat): nat
    requires h > 0
  {
    if i == 0 then 0
    else CorrectedRowCounter(h, height, i - 1) + (if (i - 1) % h == h - 1 && i - 1 != height - 1 then 1 else 0)
  }

  /** The corrected cursor stands on the pixel's own region row `i / h`. */
  lemma {:induction false} CorrectedRowCounterClosedForm(h: nat, height: nat, i: nat)
    requires h > 0 && i < height
    ensures CorrectedRowCounter(h, height, i) == i / h
  {
    if i > 0 {
      CorrectedRowCounterClosedForm(h, height, i - 1);
      DivStep(i, h);
    }
  }

  /** The output pixel at (i, j) with the cursor on the pixel's own region
      row `i / h`. */
  function CorrectedPixel(img: Image, h: nat, w: nat, i: int, j: int): (v: Pixel)
    requires Admissible(img, h, w) && h % 2 == 0 && w % 2 == 0
    requires 0 <= i < Height(img) && 0 <= j < Width(img)
  {
    OwnRowFits(img, h, w, i, j);
    InterpolatedPixel(img, h, w, i / h, i, j)
  }

  /** With the corrected cursor, a region centre and every pixel of the outer
      band take the entry of their own region's table, exactly as the
      reconstructor without interpolation does. */
  lemma CorrectedDirectIsOwnRegion(img: Image, h: nat, w: nat, i: int, j: int)
    requires Admissible(img, h, w) && h % 2 == 0 && w % 2 == 0
    requires 0 <= i < Height(img) && 0 <= j < Width(img)
    requires Center(h, w, i / h, j / w) == Point(i, j) || InBorderBand(img, h, w, i, j)
    ensures CorrectedPixel(img, h, w, i, j) == NoInterpPixel(img, h, w, i, j)
  {
    OwnRowFits(img, h, w, i, j);
    DirectIsRegionTable(img, h, w, i / h, i, j);
  }

  /** The as-written cursor selects the pixel's own region row on row 0 and
      on every row that is not a multiple of `h`; there the two rules agree. */
  lemma AdaptiveMatchesCorrectedOffRowStart(img: Image, h: nat, w: nat, i: int, j: int)
    requires Admissible(img, h, w) && h % 2 == 0 && w % 2 == 0
    requires 0 <= i < Height(img) && 0 <= j < Width(img)
    requires i == 0 || i % h != 0
    ensures AdaptivePixel(img, h, w, i, j) == CorrectedPixel(img, h, w, i, j)
  {
    CursorOffRowStart(h, i);
    CursorRowFits(img, h, w, i, j);
    OwnRowFits(img, h, w, i, j);
    assert AdaptivePixel(img, h, w, i, j) == InterpolatedPixel(img, h, w, CursorRow(h, i), i, j);
    assert CorrectedPixel(img, h, w, i, j) == InterpolatedPixel(img, h, w, i / h, i, j);
  }

  /** Off the rows `k*h` with `k >= 1` the cursor stands on region row `i / h`. */
  lemma CursorOffRowStart(h: nat, i: nat)
    requires h > 0 && (i == 0 || i % h != 0)
    ensures CursorRow(h, i) == i / h
  {
    if i > 0 {
      DivMulAdd(i / h, h, i % h - 1);
      assert i - 1 == (i / h) * h + (i % h - 1);
    }
  }

  /** On a row `k*h` with `k >= 1` the cursor stands on region row `k - 1`. */
  lemma CursorOnRowStart(h: nat, i: nat)
    requires h > 0 && i > 0 && i % h == 0
    ensures i / h >= 1 && CursorRow(h, i) == i / h - 1
  {
    DivMulAdd(i / h - 1, h, h - 1);
    assert i - 1 == (i / h - 1) * h + (h - 1);
  }

  /** On such a row no pixel is a region centre under either cursor, and an
      inner pixel lies in the lower quadrant of the centre above and in the
      upper quadrant of its own centre, whose boxes are the same box. */
  lemma SameBoxOnRowStart(img: Image, h: nat, w: nat, i: int, j: int)
    requires Admissible(img, h, w) && h % 2 == 0 && w % 2 == 0
    requires 0 < i < Height(img) && 0 <= j < Width(img) && i % h == 0
    ensures CursorRow(h, i) == i / h - 1
    ensures Center(h, w, CursorRow(h, i), j / w) != Point(i, j)
    ensures Center(h, w, i / h, j / w) != Point(i, j)
    ensures var above := Center(h, w, CursorRow(h, i), j / w);
      var own := Center(h, w, i / h, j / w);
      QuadrantBox(LastMatchingQuadrant(i, j, above), above, h, w)
        == QuadrantBox(LastMatchingQuadrant(i, j, own), own, h, w)
  {
    CursorOnRowStart(h, i);
    var k, c := i / h, j / w;
    assert i == k * h;
    DistribSub(k, 1, h);
    var r := CursorRow(h, i);
    var above, own := Center(h, w, r, c), Center(h, w, k, c);
    assert above.row == i - h + h / 2 < i;
    assert own.row == i + h / 2 > i;
    var qa, qo := LastMatchingQuadrant(i, j, above), LastMatchingQuadrant(i, j, own);
    QuadrantBoxIsCellBox(qa, h, w, r, c);
    QuadrantBoxIsCellBox(qo, h, w, k, c);
  }

  /** Inner pixels of a row `k*h` get the same blend under both cursors, so
      only the outer band of those rows is affected. */
  lemma AdaptiveMatchesCorrectedInner(img: Image, h: nat, w: nat, i: int, j: int)
    requires Admissible(img, h, w) && h % 2 == 0 && w % 2 == 0
    requires 0 <= i < Height(img) && 0 <= j < Width(img)
    requires !InBorderBand(img, h, w, i, j)
    ensures AdaptivePixel(img, h, w, i, j) == CorrectedPixel(img, h, w, i, j)
  {
    if i == 0 || i % h != 0 {
      AdaptiveMatchesCorrectedOffRowStart(img, h, w, i, j);
    } else {
      var above, own := CursorRow(h, i), i / h;
      SameBoxOnRowStart(img, h, w, i, j);
      CursorRowFits(img, h, w, i, j);
      OwnRowFits(img, h, w, i, j);
      InterpolatedInner(img, h, w, above, i, j);
      InterpolatedInner(img, h, w, own, i, j);
      assert AdaptivePixel(img, h, w, i, j) == InterpolatedPixel(img, h, w, above, i, j);
      assert CorrectedPixel(img, h, w, i, j) == InterpolatedPixel(img, h, w, own, i, j);
    }
  }

  /** As written, an outer band pixel of a row `k*h` (k >= 1) takes the entry
      of the table of region row `k - 1`, the region above its own. */
  lemma AdaptiveBandOnRowStart(img: Image, h: nat, w: nat, i: int, j: int)
    requires Admissible(img, h, w) && h % 2 == 0 && w % 2 == 0
    requires 0 < i < Height(img) && 0 <= j < Width(img) && i % h == 0
    requires InBorderBand(img, h, w, i, j)
    ensures CursorRow(h, i) == i / h - 1
    ensures 0 <= CursorRow(h, i) < GridRows(img, h) && 0 <= j / w < GridCols(img, w)
    ensures AdaptivePixel(img, h, w, i, j) == RegionTable(img, h, w, CursorRow(h, i), j / w)[img[i][j]]
  {
    CursorOnRowStart(h, i);
    CursorRowFits(img, h, w, i, j);
    DirectIsRegionTable(img, h, w, CursorRow(h, i), i, j);
  }

  // ---------------------------------------------------------------------------
  // An image on which the two rules differ

  /** A 4 by 4 image with 2 by 2 regions: the top two regions are all 1, the
      lower left region is [[1, 2], [2, 2]]. */
  function Witness(): (img: Image)
    ensures Height(img) == 4 && Width(img) == 4 && IsRectangular(img)
  {
    [[1, 1, 1, 1], [1, 1, 1, 1], [1, 2, 1, 1], [2, 2, 1, 1]]
  }

  lemma WitnessAdmissible()
    ensures Admissible(Witness(), 2, 2)
  {
    var img := Witness();
    forall r, c | 0 <= r < GridRows(img, 2) && 0 <= c < GridCols(img, 2)
      ensures HasNonzeroPixel(RegionSlice(img, 2, 2, r, c))
    {
      RegionSliceAt(img, 2, 2, r, c, 0, 0);
      assert RegionSlice(img, 2, 2, r, c)[0][0] != 0;
    }
  }

  /** The first two cumulative counts of a region, read off its pixels. */
  lemma LowCounts(s: Image)
    requires IsRectangular(s)
    ensures Cdf(s)[0] == multiset(Flatten(s))[0]
    ensures Cdf(s)[1] == multiset(Flatten(s))[0] + multiset(Flatten(s))[1]
  {
    var hist := Histogram(Flatten(s));
    PrefixSumsRecurrence(hist);
    HistogramCounts(Flatten(s), 0);
    HistogramCounts(Flatten(s), 1);
  }

  /** The row-major pixels of a 2 by 2 region. */
  lemma FlattenSquare(s: Image, a: Pixel, b: Pixel, c: Pixel, d: Pixel)
    requires s == [[a, b], [c, d]]
    ensures Flatten(s) == [a, b, c, d]
  {
    assert s[..1] == [[a, b]];
    assert s[..1][..0] == [];
    assert Flatten(s[..1]) == Flatten(s[..1][..0]) + [a, b];
    assert Flatten(s) == Flatten(s[..1]) + [c, d];
  }

  /** The table of a region whose four pixels are all 1 sends level 1 to 255. */
  lemma TableOfOnes(s: Image)
    requires s == [[1, 1], [1, 1]]
    ensures IsRectangular(s) && HasNonzeroPixel(s)
    ensures EqualizationTransform(s)[1] == 255
  {
    assert s[0][0] != 0;
    FlattenSquare(s, 1, 1, 1, 1);
    LowCounts(s);
    assert multiset(Flatten(s))[0] == 0 && multiset(Flatten(s))[1] == 4;
    assert Height(s) * Width(s) == 4;
    assert EqualizationTransform(s)[1] == Level(4, 0, 4);
  }

  /** The table of the region [[1, 2], [2, 2]] sends level 1 to
      round(255 / 4) = 64. */
  lemma TableOfLowerLeft(s: Image)
    requires s == [[1, 2], [2, 2]]
    ensures IsRectangular(s) && HasNonzeroPixel(s)
    ensures EqualizationTransform(s)[1] == 64
  {
    assert s[0][0] != 0;
    FlattenSquare(s, 1, 2, 2, 2);
    LowCounts(s);
    assert multiset(Flatten(s))[0] == 0 && multiset(Flatten(s))[1] == 1;
    assert Height(s) * Width(s) == 4;
    assert EqualizationTransform(s)[1] == Level(1, 0, 4);
    assert RoundHalfEven(255, 4) == 64;
  }

  /** The upper left and the lower left region of the witness image. */
  lemma WitnessSlices()
    ensures Tiles(Witness(), 2, 2)
    ensures RegionSlice(Witness(), 2, 2, 0, 0) == [[1, 1], [1, 1]]
    ensures RegionSlice(Witness(), 2, 2, 1, 0) == [[1, 2], [2, 2]]
  {
    var img := Witness();
    var upper, lower := RegionSlice(img, 2, 2, 0, 0), RegionSlice(img, 2, 2, 1, 0);
    assert upper == Slice(img, 0, 0, 2, 2);
    assert lower == Slice(img, 2, 0, 2, 2);
    assert upper[0] == [1, 1] && upper[1] == [1, 1];
    assert lower[0] == [1, 2] && lower[1] == [2, 2];
  }

  /** On the witness image, pixel (2, 0) lies at the start of the second
      region row and in the left band. The source gives it 255, the entry of
      the region above; its own region, and the reconstructor without
      interpolation, give 64. */
  lemma RowStartCounterexample()
    ensures Admissible(Witness(), 2, 2)
    ensures AdaptivePixel(Witness(), 2, 2, 2, 0) == 255
    ensures CorrectedPixel(Witness(), 2, 2, 2, 0) == 64
    ensures NoInterpPixel(Witness(), 2, 2, 2, 0) == 64
  {
    var img := Witness();
    WitnessAdmissible();
    assert InBorderBand(img, 2, 2, 2, 0);
    AdaptiveBandOnRowStart(img, 2, 2, 2, 0);
    CorrectedDirectIsOwnRegion(img, 2, 2, 2, 0);
    WitnessSlices();
    TableOfOnes(RegionSlice(img, 2, 2, 0, 0));
    TableOfLowerLeft(RegionSlice(img, 2, 2, 1, 0));
  }
}
