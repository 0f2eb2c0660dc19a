/** The interpolated adaptive reconstructor: a row-major sweep over the
    pixels with two cursors into the list of region centres. */
module Adaptive {
  import opened Arith
  import opened Images
  import opened Rounding
  import opened HelperFunctions
  import opened Regions
  import opened RegionTransforms
  import opened Interpolation

  // ---------------------------------------------------------------------------
  // The two cursors

  /** `region_counter - row_counter` once the test at column `j` has run: one
      step at every nonzero multiple of `w` up to `j`. */
  function ColumnCounter(w: nat, j: nat): nat
    requires w > 0
  {
    if j == 0 then 0 else ColumnCounter(w, j - 1) + (if j % w == 0 then 1 else 0)
  }

  /** `row_counter / num_regions_horizontal` while row `i` is swept: one step
      after every earlier row `k > 0` with `k % h == 0` that is not the last
      row of the image. */
  function RowCounter(h: nat, height: nat, i: nat): nat
    requires h > 0
  {
    if i == 0 then 0
    else RowCounter(h, height, i - 1) + (if i - 1 > 0 && (i - 1) % h == 0 && i - 1 != height - 1 then 1 else 0)
  }

  /** The region row the cursor selects for row `i`. */
  function CursorRow(h: nat, i: nat): nat
    requires h > 0
  {
    if i == 0 then 0 else (i - 1) / h
  }

  /** The column cursor selects region column `j / w`. */
  lemma {:induction false} ColumnCounterClosedForm(w: nat, j: nat)
    requires w > 0
    ensures ColumnCounter(w, j) == j / w
  {
    if j > 0 {
      ColumnCounterClosedForm(w, j - 1);
      DivStep(j, w);
    }
  }

  /** In every row of the image the row cursor stands on region row
      `CursorRow(h, i)`, which is `(i - 1) / h` for `i > 0`. */
  lemma {:induction false} RowCounterClosedForm(h: nat, height: nat, i: nat)
    requires h > 0 && i < height
    ensures RowCounter(h, height, i) == CursorRow(h, i)
  {
    if i > 1 {
      RowCounterClosedForm(h, height, i - 1);
      DivStep(i - 1, h);
    }
  }

  /** The cursor's region row is a row of the grid whose rows reach row `i`. */
  lemma CursorRowFits(img: Image, h: nat, w: nat, i: int, j: int)
    requires Admissible(img, h, w) && h % 2 == 0 && w % 2 == 0
    requires 0 <= i < Height(img) && 0 <= j < Width(img)
    ensures ClassifierInput(img, h, w, CursorRow(h, i), i, j)
  {
    PixelCell(img, h, w, i, j);
    if i > 0 {
      DivMonotone(i - 1, i, h);
      assert i - 1 == ((i - 1) / h) * h + (i - 1) % h;
    }
  }

  /** The output pixel of `perform_adaptive_equalization_transform` at (i, j). */
  function AdaptivePixel(img: Image, h: nat, w: nat, i: int, j: int): (v: Pixel)
    requires Admissible(img, h, w) && h % 2 == 0 && w % 2 == 0
    requires 0 <= i < Height(img) && 0 <= j < Width(img)
  {
    CursorRowFits(img, h, w, i, j);
    InterpolatedPixel(img, h, w, CursorRow(h, i), i, j)
  }

  // ---------------------------------------------------------------------------
  // The sweep

  /** The source's four quadrant tests, in order, each overwriting the
      corners the earlier ones chose. */
  method QuadrantCorners(i: int, j: int, center: Point, h: nat, w: nat) returns (b: Box)
    ensures b == QuadrantBox(LastMatchingQuadrant(i, j, center), center, h, w)
  {
    var (ch, cw) := (center.row, center.col);
    var c11, c12, c21, c22 := center, center, center, center;
    if i <= ch && j <= cw {
      c11, c12, c21, c22 := Point(ch, cw - w), Point(ch - h, cw - w), Point(ch, cw), Point(ch - h, cw);
    }
    if i <= ch && j >= cw {
      c11, c12, c21, c22 := Point(ch, cw), Point(ch - h, cw), Point(ch, cw + w), Point(ch - h, cw + w);
    }
    if i >= ch && j <= cw {
      c11, c12, c21, c22 := Point(ch + h, cw - w), Point(ch, cw - w), Point(ch + h, cw), Point(ch, cw);
    }
    if i >= ch && j >= cw {
      c11, c12, c21, c22 := Point(ch + h, cw), Point(ch, cw), Point(ch + h, cw + w), Point(ch, cw + w);
    }
    b := Box(c11, c12, c21, c22);
  }

  /** `temp` and `np.round((1 / area) * temp)`, written term by term as the
      source writes them. */
  method BlendEntries(b: Box, t11: int, t12: int, t21: int, t22: int, i: int, j: int) returns (v: int)
    requires InBox(b, i, j)
    ensures v == Blend(b, t11, t12, t21, t22, i, j)
  {
    var (c11, c22) := (b.c11, b.c22);
    var temp := t11 * (c22.col - j) * (c22.row - i) + t21 * (j - c11.col) * (c22.row - i) +
                t12 * (c22.col - j) * (i - c11.row) + t22 * (j - c11.col) * (i - c11.row);
    MulAssoc(t11, c22.col - j, c22.row - i);
    MulAssoc(t21, j - c11.col, c22.row - i);
    MulAssoc(t12, c22.col - j, i - c11.row);
    MulAssoc(t22, j - c11.col, i - c11.row);
    assert temp == t11 * Weight11(b, i, j) + t21 * Weight21(b, i, j) + t12 * Weight12(b, i, j) + t22 * Weight22(b, i, j);
    WeightSigns(b, i, j);
    var area := (c22.row - c11.row) * (c22.col - c11.col);
    assert area == BoxArea(b);
    v := RoundHalfEven(temp, area);
  }

  /** The body of the inner loop for pixel (i, j) once the cursor has
      selected `center`, the centre of region row `r` and column `j / w`:
      the two direct-lookup cases, then the quadrant tests, the four table
      lookups and the blend. */
  method EqualizePixel(img: Image, h: nat, w: nat, d: TransformDict, center: Point, ghost r: int, i: int, j: int)
    returns (v: Pixel)
    requires ClassifierInput(img, h, w, r, i, j)
    requires center == Center(h, w, r, j / w)
    requires HoldsRegionTables(img, h, w, d)
    ensures v == InterpolatedPixel(img, h, w, r, i, j)
  {
    var height, width := Height(img), Width(img);
    var pixel := img[i][j];
    if i == center.row && j == center.col {
      InterpolatedDirect(img, h, w, r, i, j);
      v := d.tables[center][pixel];
    } else if (i <= h / 2 || i >= height - h / 2) || (j <= w / 2 || j >= width - w / 2) {
      InterpolatedDirect(img, h, w, r, i, j);
      v := d.tables[center][pixel];
    } else {
      v := InnerPixel(img, h, w, d, center, r, i, j);
    }
  }

  /** The inner-pixel branch: the quadrant tests, the four table lookups and
      the blend. */
  method InnerPixel(img: Image, h: nat, w: nat, d: TransformDict, center: Point, ghost r: int, i: int, j: int)
    returns (v: Pixel)
    requires ClassifierInput(img, h, w, r, i, j)
    requires center == Center(h, w, r, j / w)
    requires center != Point(i, j) && !InBorderBand(img, h, w, i, j)
    requires HoldsRegionTables(img, h, w, d)
    ensures v == InterpolatedPixel(img, h, w, r, i, j)
  {
    var pixel := img[i][j];
    var b := QuadrantCorners(i, j, center, h, w);
    InterpolatedInner(img, h, w, r, i, j);
    var t11 := d.tables[b.c11][pixel];
    var t12 := d.tables[b.c12][pixel];
    var t21 := d.tables[b.c21][pixel];
    var t22 := d.tables[b.c22][pixel];
    var blended := BlendEntries(b, t11, t12, t21, t22, i, j);
    v := blended;
  }

  /** `perform_adaptive_equalization_transform`: check the region sizes,
      build the table of every region, then sweep the pixels row by row,
      keeping `row_counter` at the first region of the cursor's region row and
      `region_counter` at the region whose centre serves the current pixel. */
  method PerformAdaptiveEqualizationTransform(img: Image, h: nat, w: nat) returns (res: Result<array2<Pixel>>)
    requires IsRectangular(img)
    requires Tiles(img, h, w) ==> RegionsNonDegenerate(img, h, w) && h % 2 == 0 && w % 2 == 0
    ensures res.Err? <==> DimensionCheck(Height(img), Width(img), h, w) != Pass
    ensures res.Err? ==> res.error == DimensionCheck(Height(img), Width(img), h, w).error
    ensures res.Ok? ==> fresh(res.value)
    ensures res.Ok? ==> res.value.Length0 == Height(img) && res.value.Length1 == Width(img)
    ensures res.Ok? ==> Admissible(img, h, w) && h % 2 == 0 && w % 2 == 0
    ensures res.Ok? ==> forall i, j :: 0 <= i < Height(img) && 0 <= j < Width(img) ==>
      res.value[i, j] == AdaptivePixel(img, h, w, i, j)
  {
    var height, width := Height(img), Width(img);
    var check := DimensionCheck(height, width, h, w);
    if check.Fail? {
      return Err(check.error);
    }
    assert Tiles(img, h, w);
    assert Admissible(img, h, w) && h % 2 == 0 && w % 2 == 0;
    var nh := width / w;
    var dres := GetEqualizationTransformOfRegions(img, h, w);
    var dict := dres.value;
    var centers := dict.keys;
    var out := new Pixel[height, width]((_, _) => 0);
    var regionCounter := 0;
    var rowCounter := 0;
    for i := 0 to height
      invariant rowCounter == nh * RowCounter(h, height, i) && regionCounter == rowCounter
      invariant forall a, b :: 0 <= a < i && 0 <= b < width ==> out[a, b] == AdaptivePixel(img, h, w, a, b)
    {
      RowCounterClosedForm(h, height, i);
      ghost var expected := seq(width, b requires 0 <= b < width => AdaptivePixel(img, h, w, i, b));
      regionCounter := SweepRow(img, h, w, dict, out, i, rowCounter, expected);
      regionCounter := rowCounter;
      if i > 0 && i % h == 0 && i != height - 1 {
        rowCounter := rowCounter + nh;
        regionCounter := rowCounter;
      }
      DistribAdd(RowCounter(h, height, i), 1, nh);
      MulComm(nh, RowCounter(h, height, i));
      MulComm(nh, RowCounter(h, height, i) + 1);
    }
    return Ok(out);
  }

  /** The inner loop over the columns of row `i`: `region_counter` starts at
      `row_counter` and steps to the next region at each multiple of `w`.
      Returns the final value of `region_counter`. */
  method SweepRow(img: Image, h: nat, w: nat, d: TransformDict, out: array2<Pixel>, i: int, rowCounter: int,
                  ghost expected: seq<Pixel>)
    returns (regionCounter: int)
    requires Admissible(img, h, w) && h % 2 == 0 && w % 2 == 0
    requires 0 <= i < Height(img)
    requires out.Length0 == Height(img) && out.Length1 == Width(img)
    requires rowCounter == GridCols(img, w) * CursorRow(h, i)
    requires |expected| == Width(img)
    requires forall b {:trigger AdaptivePixel(img, h, w, i, b)} :: 0 <= b < Width(img) ==> expected[b] == AdaptivePixel(img, h, w, i, b)
    requires HoldsRegionTables(img, h, w, d)
    modifies out
    ensures forall a, b :: 0 <= a < out.Length0 && 0 <= b < out.Length1 ==>
      out[a, b] == if a == i then expected[b] else old(out[a, b])
  {
    var width := Width(img);
    regionCounter := rowCounter;
    for j := 0 to width
      invariant regionCounter == rowCounter + (if j == 0 then 0 else ColumnCounter(w, j - 1))
      invariant forall b :: 0 <= b < j ==> out[i, b] == expected[b]
      invariant forall a, b :: 0 <= a < out.Length0 && 0 <= b < out.Length1 && (a != i || b >= j) ==>
        out[a, b] == old(out[a, b])
    {
      if j != 0 && j % w == 0 && j < width {
        regionCounter := regionCounter + 1;
      }
      ColumnCounterClosedForm(w, j);
      StorePixel(img, h, w, d, out, i, j, regionCounter, expected);
    }
  }

  /** The body of the inner loop: `out[i, j]` receives the pixel served with
      `region_counter`, and nothing else changes. */
  method StorePixel(img: Image, h: nat, w: nat, d: TransformDict, out: array2<Pixel>, i: int, j: int, regionCounter: int,
                    ghost expected: seq<Pixel>)
    requires Admissible(img, h, w) && h % 2 == 0 && w % 2 == 0
    requires 0 <= i < Height(img) && 0 <= j < Width(img)
    requires out.Length0 == Height(img) && out.Length1 == Width(img)
    requires regionCounter == GridCols(img, w) * CursorRow(h, i) + j / w
    requires |expected| == Width(img)
    requires forall b {:trigger AdaptivePixel(img, h, w, i, b)} :: 0 <= b < Width(img) ==> expected[b] == AdaptivePixel(img, h, w, i, b)
    requires HoldsRegionTables(img, h, w, d)
    modifies out
    ensures out[i, j] == expected[j]
    ensures forall a, b :: 0 <= a < out.Length0 && 0 <= b < out.Length1 && (a != i || b != j) ==>
      out[a, b] == old(out[a, b])
  {
    var v := ServePixel(img, h, w, d, i, j, regionCounter);
    out[i, j] := v;
  }

  /** Pixel (i, j) with `region_counter` at `nh * CursorRow(h, i) + j / w`:
      read the centre from the key list, then classify the pixel. */
  method ServePixel(img: Image, h: nat, w: nat, d: TransformDict, i: int, j: int, regionCounter: int)
    returns (v: Pixel)
    requires Admissible(img, h, w) && h % 2 == 0 && w % 2 == 0
    requires 0 <= i < Height(img) && 0 <= j < Width(img)
    requires regionCounter == GridCols(img, w) * CursorRow(h, i) + j / w
    requires HoldsRegionTables(img, h, w, d)
    ensures v == AdaptivePixel(img, h, w, i, j)
  {
    CursorIndex(img, h, w, i, j);
    var center := d.keys[regionCounter];
    CursorRowFits(img, h, w, i, j);
    v := EqualizePixel(img, h, w, d, center, CursorRow(h, i), i, j);
  }

  /** The centre list entry `(CursorRow(h, i)) * nh + j / w`, where the two
      cursors point, is the centre of region row `CursorRow(h, i)` and region
      column `j / w`. */
  lemma CursorIndex(img: Image, h: nat, w: nat, i: int, j: int)
    requires Admissible(img, h, w) && h % 2 == 0 && w % 2 == 0
    requires 0 <= i < Height(img) && 0 <= j < Width(img)
    ensures var nh := GridCols(img, w);
      var k := nh * CursorRow(h, i) + j / w;
      0 <= k < |RegionStarts(Height(img), Width(img), h, w)| &&
      CenterOf(RegionStarts(Height(img), Width(img), h, w)[k], h, w) == Center(h, w, CursorRow(h, i), j / w)
  {
    CursorRowFits(img, h, w, i, j);
    PixelCell(img, h, w, i, j);
    var nh := GridCols(img, w);
    var r, c := CursorRow(h, i), j / w;
    MulComm(nh, r);
    RegionStartOfCell(img, h, w, r, c);
  }
}
