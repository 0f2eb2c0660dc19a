/** The per-pixel classifier of the interpolated reconstructor: a direct table
    lookup for region centres and for the outer band of half a region, and a
    bilinear blend of the tables of four neighbouring centres elsewhere. */
module Interpolation {
  import opened Arith
  import opened Images
  import opened Rounding
  import opened HelperFunctions
  import opened Regions

  // ---------------------------------------------------------------------------
  // Quadrants and blend boxes

  datatype Quadrant = UpLeft | UpRight | DownLeft | DownRight

  /** The quadrant, relative to the centre `ctr`, that the source's chain of
      four `if` statements leaves in force: each later test that holds
      overrides the earlier ones, so a pixel on the centre's row or column
      goes to the later branch. */
  function LastMatchingQuadrant(i: int, j: int, ctr: Point): (q: Quadrant)
    ensures q == UpLeft <==> i < ctr.row && j < ctr.col
    ensures q == UpRight <==> i < ctr.row && j >= ctr.col
    ensures q == DownLeft <==> i >= ctr.row && j < ctr.col
    ensures q == DownRight <==> i >= ctr.row && j >= ctr.col
  {
    var q := UpLeft;
    var q := if i <= ctr.row && j >= ctr.col then UpRight else q;
    var q := if i >= ctr.row && j <= ctr.col then DownLeft else q;
    if i >= ctr.row && j >= ctr.col then DownRight else q
  }

  /** The four centres of a blend: `c11` lower left, `c12` upper left, `c21`
      lower right, `c22` upper right. */
  datatype Box = Box(c11: Point, c12: Point, c21: Point, c22: Point)

  /** The box the source builds for quadrant `q` of centre `ctr`. */
  function QuadrantBox(q: Quadrant, ctr: Point, h: nat, w: nat): (b: Box)
    ensures b.c11.row == b.c21.row == b.c12.row + h == b.c22.row + h
    ensures b.c11.col == b.c12.col == b.c21.col - w == b.c22.col - w
    ensures ctr == (match q
      case UpLeft => b.c21
      case UpRight => b.c11
      case DownLeft => b.c22
      case DownRight => b.c12)
  {
    var (ch, cw) := (ctr.row, ctr.col);
    match q
    case UpLeft =>
      Box(Point(ch, cw - w), Point(ch - h, cw - w), Point(ch, cw), Point(ch - h, cw))
    case UpRight =>
      Box(Point(ch, cw), Point(ch - h, cw), Point(ch, cw + w), Point(ch - h, cw + w))
    case DownLeft =>
      Box(Point(ch + h, cw - w), Point(ch, cw - w), Point(ch + h, cw), Point(ch, cw))
    case DownRight =>
      Box(Point(ch + h, cw), Point(ch, cw), Point(ch + h, cw + w), Point(ch, cw + w))
  }

  /** The box spanned by the centres of cells (r0, c0) to (r0 + 1, c0 + 1). */
  function CellBox(h: nat, w: nat, r0: int, c0: int): Box
  {
    Box(Center(h, w, r0 + 1, c0), Center(h, w, r0, c0), Center(h, w, r0 + 1, c0 + 1), Center(h, w, r0, c0 + 1))
  }

  /** Every quadrant box of a region centre is the box of a 2 by 2 block of
      cells: the block reaches one cell up for the upper quadrants and one
      cell left for the left ones. */
  lemma QuadrantBoxIsCellBox(q: Quadrant, h: nat, w: nat, r: int, c: int)
    ensures QuadrantBox(q, Center(h, w, r, c), h, w)
      == CellBox(h, w, if q == UpLeft || q == UpRight then r - 1 else r, if q == UpLeft || q == DownLeft then c - 1 else c)
  {
    DistribSub(r, 1, h);
    DistribAdd(r, 1, h);
    DistribSub(c, 1, w);
    DistribAdd(c, 1, w);
  }

  /** Pixel (i, j) lies in the closed box, whose top row is above its bottom
      row and whose left column is left of its right column. */
  predicate InBox(b: Box, i: int, j: int)
  {
    b.c22.row < b.c11.row && b.c11.col < b.c22.col &&
    b.c22.row <= i <= b.c11.row && b.c11.col <= j <= b.c22.col
  }

  /** The source's divisor `(c22[0] - c11[0]) * (c22[1] - c11[1])`: the box
      area with a negative sign. */
  function BoxArea(b: Box): int
  {
    (b.c22.row - b.c11.row) * (b.c22.col - b.c11.col)
  }

  /** The weights of `T11`, `T21`, `T12` and `T22` in the source's `temp`. */
  function Weight11(b: Box, i: int, j: int): int { (b.c22.col - j) * (b.c22.row - i) }
  function Weight21(b: Box, i: int, j: int): int { (j - b.c11.col) * (b.c22.row - i) }
  function Weight12(b: Box, i: int, j: int): int { (b.c22.col - j) * (i - b.c11.row) }
  function Weight22(b: Box, i: int, j: int): int { (j - b.c11.col) * (i - b.c11.row) }

  /** The four weights add up to the divisor, whatever the pixel. */
  lemma WeightsSumToArea(b: Box, i: int, j: int)
    ensures Weight11(b, i, j) + Weight21(b, i, j) + Weight12(b, i, j) + Weight22(b, i, j) == BoxArea(b)
  {
    var right, left, top, bottom := b.c22.col, b.c11.col, b.c22.row, b.c11.row;
    DistribAdd(right - j, j - left, top - i);
    DistribAdd(right - j, j - left, i - bottom);
    assert Weight11(b, i, j) + Weight21(b, i, j) == (right - left) * (top - i);
    assert Weight12(b, i, j) + Weight22(b, i, j) == (right - left) * (i - bottom);
    MulComm(right - left, top - i);
    MulComm(right - left, i - bottom);
    DistribAdd(top - i, i - bottom, right - left);
    MulComm(top - bottom, right - left);
  }

  /** For a pixel in the box, the divisor is negative and no weight is positive. */
  lemma WeightSigns(b: Box, i: int, j: int)
    requires InBox(b, i, j)
    ensures BoxArea(b) < 0
    ensures Weight11(b, i, j) <= 0 && Weight21(b, i, j) <= 0 && Weight12(b, i, j) <= 0 && Weight22(b, i, j) <= 0
  {
    MulNonPosNonNeg(b.c22.row - b.c11.row, b.c22.col - b.c11.col);
    MulNonPosNonNeg(b.c22.row - i, b.c22.col - j);
    MulNonPosNonNeg(b.c22.row - i, j - b.c11.col);
    MulNonPosNonNeg(i - b.c11.row, b.c22.col - j);
    MulNonPosNonNeg(i - b.c11.row, j - b.c11.col);
    MulComm(b.c22.col - j, b.c22.row - i);
    MulComm(j - b.c11.col, b.c22.row - i);
    MulComm(b.c22.col - j, i - b.c11.row);
    MulComm(j - b.c11.col, i - b.c11.row);
    if b.c22.row - b.c11.row < 0 && b.c22.col - b.c11.col > 0 {
      MulNegPos(b.c22.row - b.c11.row, b.c22.col - b.c11.col);
    }
  }

  function Min4(a: int, b: int, c: int, d: int): int
  {
    var m := if a < b then a else b;
    var m := if m < c then m else c;
    if m < d then m else d
  }

  function Max4(a: int, b: int, c: int, d: int): int
  {
    var m := if a > b then a else b;
    var m := if m > c then m else c;
    if m > d then m else d
  }

  /** The source's `np.round((1 / area) * temp)` for a pixel in the box, on
      exact rationals: the weighted combination of the four table entries,
      divided by the divisor and rounded. It lies between the smallest and the
      largest of the four entries. */
  function Blend(b: Box, t11: int, t12: int, t21: int, t22: int, i: int, j: int): (v: int)
    requires InBox(b, i, j)
    ensures Min4(t11, t12, t21, t22) <= v <= Max4(t11, t12, t21, t22)
  {
    var temp := t11 * Weight11(b, i, j) + t21 * Weight21(b, i, j) + t12 * Weight12(b, i, j) + t22 * Weight22(b, i, j);
    WeightSigns(b, i, j);
    BlendBounds(b, t11, t12, t21, t22, i, j);
    RoundHalfEven(temp, BoxArea(b))
  }

  /** `temp` lies between the divisor times the largest entry and the divisor
      times the smallest one. */
  lemma BlendBounds(b: Box, t11: int, t12: int, t21: int, t22: int, i: int, j: int)
    requires InBox(b, i, j)
    ensures BoxArea(b) < 0
    ensures var temp := t11 * Weight11(b, i, j) + t21 * Weight21(b, i, j) + t12 * Weight12(b, i, j) + t22 * Weight22(b, i, j);
      Min4(t11, t12, t21, t22) <= RoundHalfEven(temp, BoxArea(b)) <= Max4(t11, t12, t21, t22)
  {
    var w11, w21, w12, w22 := Weight11(b, i, j), Weight21(b, i, j), Weight12(b, i, j), Weight22(b, i, j);
    var temp := t11 * w11 + t21 * w21 + t12 * w12 + t22 * w22;
    var lo, hi := Min4(t11, t12, t21, t22), Max4(t11, t12, t21, t22);
    var area := BoxArea(b);
    WeightsSumToArea(b, i, j);
    WeightSigns(b, i, j);
    ScaleByNonPositive(lo, t11, hi, w11);
    ScaleByNonPositive(lo, t21, hi, w21);
    ScaleByNonPositive(lo, t12, hi, w12);
    ScaleByNonPositive(lo, t22, hi, w22);
    DistribAdd4(lo, w11, w21, w12, w22);
    DistribAdd4(hi, w11, w21, w12, w22);
    assert hi * area <= temp <= lo * area;
    MulNeg(lo, area);
    MulNeg(hi, area);
    RoundNegate(temp, area);
    RoundWithin(-temp, -area, lo, hi);
  }

  /** At a corner of the box, the blend is that corner's entry. */
  lemma BlendAtCorner(b: Box, t11: int, t12: int, t21: int, t22: int)
    requires InBox(b, b.c11.row, b.c11.col)
    ensures Blend(b, t11, t12, t21, t22, b.c11.row, b.c11.col) == t11
  {
    var (i, j) := (b.c11.row, b.c11.col);
    var area := BoxArea(b);
    assert Weight21(b, i, j) == 0 && Weight12(b, i, j) == 0 && Weight22(b, i, j) == 0;
    assert Weight11(b, i, j) == area by {
      MulComm(b.c22.col - j, b.c22.row - i);
    }
    MulZero(t21, Weight21(b, i, j));
    MulZero(t12, Weight12(b, i, j));
    MulZero(t22, Weight22(b, i, j));
    var temp := t11 * Weight11(b, i, j) + t21 * Weight21(b, i, j) + t12 * Weight12(b, i, j) + t22 * Weight22(b, i, j);
    assert temp == t11 * area;
    WeightSigns(b, i, j);
    assert Blend(b, t11, t12, t21, t22, i, j) == RoundHalfEven(t11 * area, area);
    RoundExactNegative(t11, area);
  }

  // ---------------------------------------------------------------------------
  // The classifier

  /** `i <= h // 2 or i >= height - h // 2 or j <= w // 2 or j >= width - w // 2`:
      the pixel lies in the outer band of half a region. */
  predicate InBorderBand(img: Image, h: nat, w: nat, i: int, j: int)
  {
    i <= h / 2 || i >= Height(img) - h / 2 || j <= w / 2 || j >= Width(img) - w / 2
  }

  /** What the classifier needs: an admissible image, even region sizes (with
      an odd size the source can look up a centre that does not exist), a
      pixel of the image and a region row `r` whose rows reach row `i`. */
  predicate ClassifierInput(img: Image, h: nat, w: nat, r: int, i: int, j: int)
  {
    Admissible(img, h, w) && h % 2 == 0 && w % 2 == 0 &&
    0 <= i < Height(img) && 0 <= j < Width(img) &&
    0 <= r < GridRows(img, h) && r * h <= i <= r * h + h
  }

  /** One axis of the blend box of an inner pixel. Along an axis of `count`
      regions of even length `d`, a coordinate `x` with `r*d <= x <= r*d + d`
      that is more than half a region away from both ends has a box starting
      at the centre of region `r - 1` when it lies before the centre of region
      `r`, and at the centre of region `r` otherwise; both centres of the box
      exist and `x` lies between them. */
  lemma AxisSpan(d: nat, count: nat, r: int, x: int)
    requires d > 0 && d % 2 == 0 && 0 <= r < count
    requires r * d <= x <= r * d + d
    requires d / 2 < x < count * d - d / 2
    ensures var r0 := if x < r * d + d / 2 then r - 1 else r;
      0 <= r0 && r0 + 1 < count && r0 * d + d / 2 <= x <= (r0 + 1) * d + d / 2
  {
    assert d == 2 * (d / 2);
    DistribAdd(r, 1, d);
    DistribSub(r, 1, d);
    if x < r * d + d / 2 {
      MulBelow(0, r, d);
    } else {
      DistribAdd(r + 1, 1, d);
      MulBelow(r + 1, count, d);
    }
  }

  /** The blend box of an inner pixel: a 2 by 2 block of grid cells that
      contains the pixel, so all four of its corners are region centres. */
  lemma InnerBox(img: Image, h: nat, w: nat, r: int, i: int, j: int)
    requires ClassifierInput(img, h, w, r, i, j)
    requires !InBorderBand(img, h, w, i, j)
    ensures var ctr := Center(h, w, r, j / w);
      var b := QuadrantBox(LastMatchingQuadrant(i, j, ctr), ctr, h, w);
      InBox(b, i, j) &&
      IsCenter(img, h, w, b.c11) && IsCenter(img, h, w, b.c12) &&
      IsCenter(img, h, w, b.c21) && IsCenter(img, h, w, b.c22)
  {
    var nv, nh := GridRows(img, h), GridCols(img, w);
    var c := j / w;
    PixelCell(img, h, w, i, j);
    assert Height(img) == nv * h + Height(img) % h;
    assert Width(img) == nh * w + Width(img) % w;
    assert j == c * w + j % w;
    DistribAdd(c, 1, w);
    AxisSpan(h, nv, r, i);
    AxisSpan(w, nh, c, j);
    var ctr := Center(h, w, r, c);
    var q := LastMatchingQuadrant(i, j, ctr);
    var r0 := if q == UpLeft || q == UpRight then r - 1 else r;
    var c0 := if q == UpLeft || q == DownLeft then c - 1 else c;
    QuadrantBoxIsCellBox(q, h, w, r, c);
    CellBoxCenters(img, h, w, r0, c0);
  }

  /** The four corners of the box of a 2 by 2 block of grid cells are region
      centres. */
  lemma CellBoxCenters(img: Image, h: nat, w: nat, r0: int, c0: int)
    requires Tiles(img, h, w)
    requires 0 <= r0 && r0 + 1 < GridRows(img, h) && 0 <= c0 && c0 + 1 < GridCols(img, w)
    ensures var b := CellBox(h, w, r0, c0);
      IsCenter(img, h, w, b.c11) && IsCenter(img, h, w, b.c12) &&
      IsCenter(img, h, w, b.c21) && IsCenter(img, h, w, b.c22)
  {
    CenterOfCell(img, h, w, r0, c0);
    CenterOfCell(img, h, w, r0 + 1, c0);
    CenterOfCell(img, h, w, r0, c0 + 1);
    CenterOfCell(img, h, w, r0 + 1, c0 + 1);
  }

  /** The blend of an inner pixel: the tables of the four centres of the box
      of its quadrant, weighted by the pixel's position in the box. */
  function InnerBlend(img: Image, h: nat, w: nat, r: int, i: int, j: int): (v: Pixel)
    requires ClassifierInput(img, h, w, r, i, j) && !InBorderBand(img, h, w, i, j)
  {
    InnerBox(img, h, w, r, i, j);
    var ctr := Center(h, w, r, j / w);
    var b := QuadrantBox(LastMatchingQuadrant(i, j, ctr), ctr, h, w);
    var pixel := img[i][j];
    Blend(b, TableAt(img, h, w, b.c11)[pixel], TableAt(img, h, w, b.c12)[pixel],
             TableAt(img, h, w, b.c21)[pixel], TableAt(img, h, w, b.c22)[pixel], i, j)
  }

  /** The output pixel at (i, j) when the cursor stands on region row `r`:
      the entry of the table of the centre in row `r` and column `j / w` if
      the pixel is that centre or lies in the outer band, and otherwise the
      blend of the tables of the four centres of its quadrant's box. */
  function InterpolatedPixel(img: Image, h: nat, w: nat, r: int, i: int, j: int): (v: Pixel)
    requires ClassifierInput(img, h, w, r, i, j)
  {
    PixelCell(img, h, w, i, j);
    var ctr := Center(h, w, r, j / w);
    CenterOfCell(img, h, w, r, j / w);
    if i == ctr.row && j == ctr.col then TableAt(img, h, w, ctr)[img[i][j]]
    else if InBorderBand(img, h, w, i, j) then TableAt(img, h, w, ctr)[img[i][j]]
    else InnerBlend(img, h, w, r, i, j)
  }

  /** A region centre, and any pixel of the outer band, takes the entry of the
      table of the centre the cursor selected. */
  lemma InterpolatedDirect(img: Image, h: nat, w: nat, r: int, i: int, j: int)
    requires ClassifierInput(img, h, w, r, i, j)
    requires Center(h, w, r, j / w) == Point(i, j) || InBorderBand(img, h, w, i, j)
    ensures IsCenter(img, h, w, Center(h, w, r, j / w))
    ensures InterpolatedPixel(img, h, w, r, i, j) == TableAt(img, h, w, Center(h, w, r, j / w))[img[i][j]]
  {
    PixelCell(img, h, w, i, j);
    CenterOfCell(img, h, w, r, j / w);
  }

  /** The directly looked-up table is the table of grid cell `(r, j / w)`. */
  lemma DirectIsRegionTable(img: Image, h: nat, w: nat, r: int, i: int, j: int)
    requires ClassifierInput(img, h, w, r, i, j)
    requires Center(h, w, r, j / w) == Point(i, j) || InBorderBand(img, h, w, i, j)
    ensures 0 <= j / w < GridCols(img, w)
    ensures InterpolatedPixel(img, h, w, r, i, j) == RegionTable(img, h, w, r, j / w)[img[i][j]]
  {
    InterpolatedDirect(img, h, w, r, i, j);
    PixelCell(img, h, w, i, j);
    CenterOfCell(img, h, w, r, j / w);
  }

  /** Every other pixel is the blend, over the box of its quadrant, of the
      entries of the tables of the box's four corners; the result lies between
      the smallest and the largest of those four entries. */
  lemma InterpolatedInner(img: Image, h: nat, w: nat, r: int, i: int, j: int)
    requires ClassifierInput(img, h, w, r, i, j)
    requires Center(h, w, r, j / w) != Point(i, j) && !InBorderBand(img, h, w, i, j)
    ensures var ctr := Center(h, w, r, j / w);
      var b := QuadrantBox(LastMatchingQuadrant(i, j, ctr), ctr, h, w);
      InBox(b, i, j) &&
      IsCenter(img, h, w, b.c11) && IsCenter(img, h, w, b.c12) &&
      IsCenter(img, h, w, b.c21) && IsCenter(img, h, w, b.c22) &&
      var (t11, t12, t21, t22) := (TableAt(img, h, w, b.c11)[img[i][j]], TableAt(img, h, w, b.c12)[img[i][j]],
                                    TableAt(img, h, w, b.c21)[img[i][j]], TableAt(img, h, w, b.c22)[img[i][j]]);
      InterpolatedPixel(img, h, w, r, i, j) == Blend(b, t11, t12, t21, t22, i, j) &&
      Min4(t11, t12, t21, t22) <= InterpolatedPixel(img, h, w, r, i, j) <= Max4(t11, t12, t21, t22)
  {
    InnerBox(img, h, w, r, i, j);
  }
}
