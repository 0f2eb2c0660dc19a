/** The region partitioner of the adaptive engine: the dimension check, the
    row-major list of region starts, region centres, and the table of each
    region. Regions are `h` rows by `w` columns; the grid of regions has
    `Height / h` rows and `Width / w` columns. */
module Regions {
  import opened Arith
  import opened Images
  import opened HelperFunctions

  /** The source's `assert m % h == 0 and n % w == 0`, evaluated as Python
      does: `%` by zero raises before any comparison, and `and` stops at the
      first false operand. */
  function DimensionCheck(m: nat, n: nat, h: nat, w: nat): (o: Outcome)
    ensures o == Pass <==> h > 0 && w > 0 && m % h == 0 && n % w == 0
    ensures o == Fail(ZeroDivision) <==> h == 0 || (m % h == 0 && w == 0)
  {
    if h == 0 then Fail(ZeroDivision)
    else if m % h != 0 then Fail(DimensionMismatch)
    else if w == 0 then Fail(ZeroDivision)
    else if n % w != 0 then Fail(DimensionMismatch)
    else Pass
  }

  /** The regions tile the image: the image is rectangular and the region
      sizes are positive and divide its dimensions. */
  predicate Tiles(img: Image, h: nat, w: nat)
  {
    IsRectangular(img) && DimensionCheck(Height(img), Width(img), h, w) == Pass
  }

  /** Number of region rows. */
  function GridRows(img: Image, h: nat): nat
    requires h > 0
  {
    Height(img) / h
  }

  /** Number of regions in each row, `num_regions_horizontal`. */
  function GridCols(img: Image, w: nat): nat
    requires w > 0
  {
    Width(img) / w
  }

  /** A region-grid index (region row, region column). */
  datatype Cell = Cell(r: int, c: int)

  // ---------------------------------------------------------------------------
  // The region list

  /** Python's `range(lo, stop, step)` for a positive step. */
  function Range(lo: int, stop: int, step: nat): seq<int>
    requires step > 0
    decreases stop - lo
  {
    if lo >= stop then [] else [lo] + Range(lo + step, stop, step)
  }

  /** `[(i, j) for i in rows for j in cols]`. */
  function RowMajor(rows: seq<int>, cols: seq<int>): seq<Point>
  {
    if |rows| == 0 then []
    else seq(|cols|, k requires 0 <= k < |cols| => Point(rows[0], cols[k])) + RowMajor(rows[1..], cols)
  }

  /** The region starts, `[(i, j) for i in range(0, m, h) for j in range(0, n, w)]`. */
  function RegionStarts(m: nat, n: nat, h: nat, w: nat): seq<Point>
    requires h > 0 && w > 0
  {
    RowMajor(Range(0, m, h), Range(0, n, w))
  }

  /** A range over a whole number of steps lists the multiples of the step. */
  lemma {:induction false} RangeSteps(lo: int, q: nat, step: nat)
    requires step > 0
    ensures |Range(lo, lo + q * step, step)| == q
    ensures forall k :: 0 <= k < q ==> Range(lo, lo + q * step, step)[k] == lo + k * step
    decreases q
  {
    if q > 0 {
      DistribSub(q, 1, step);
      assert lo + q * step == (lo + step) + (q - 1) * step;
      RangeSteps(lo + step, q - 1, step);
      forall k | 1 <= k < q
        ensures Range(lo, lo + q * step, step)[k] == lo + k * step
      {
        DistribSub(k, 1, step);
      }
    }
  }

  lemma {:induction false} RowMajorLength(rows: seq<int>, cols: seq<int>)
    ensures |RowMajor(rows, cols)| == |rows| * |cols|
  {
    if |rows| > 0 {
      RowMajorLength(rows[1..], cols);
      DistribSub(|rows|, 1, |cols|);
    }
  }

  /** Entry `k` of a row-major product pairs row `k / |cols|` with column `k % |cols|`. */
  lemma {:induction false} RowMajorAt(rows: seq<int>, cols: seq<int>, k: int)
    requires |cols| > 0 && 0 <= k < |rows| * |cols|
    ensures |RowMajor(rows, cols)| == |rows| * |cols|
    ensures RowMajor(rows, cols)[k] == Point(rows[k / |cols|], cols[k % |cols|])
    decreases |rows|
  {
    var nc := |cols|;
    RowMajorLength(rows, cols);
    assert |rows| > 0;
    RowMajorLength(rows[1..], cols);
    DistribSub(|rows|, 1, nc);
    var head := seq(nc, t requires 0 <= t < nc => Point(rows[0], cols[t]));
    var tail := RowMajor(rows[1..], cols);
    assert RowMajor(rows, cols) == head + tail;
    if k < nc {
      DivMulAdd(0, nc, k);
      assert k / nc == 0 && k % nc == k;
      assert RowMajor(rows, cols)[k] == head[k];
    } else {
      RowMajorAt(rows[1..], cols, k - nc);
      DivShift(k, nc);
      var q, c := (k - nc) / nc, (k - nc) % nc;
      DivBelow(k - nc, nc, |rows| - 1);
      assert tail[k - nc] == Point(rows[1..][q], cols[c]);
      assert rows[1..][q] == rows[q + 1];
      assert RowMajor(rows, cols)[k] == tail[k - nc];
    }
  }

  /** The region list has one entry per grid cell, in row-major order, and
      entry `k` starts at row `(k / nh) * h` and column `(k % nh) * w`. */
  lemma RegionStartsAt(img: Image, h: nat, w: nat)
    requires Tiles(img, h, w)
    ensures |RegionStarts(Height(img), Width(img), h, w)| == GridRows(img, h) * GridCols(img, w)
    ensures forall k :: 0 <= k < |RegionStarts(Height(img), Width(img), h, w)| ==>
      RegionStarts(Height(img), Width(img), h, w)[k]
        == Point((k / GridCols(img, w)) * h, (k % GridCols(img, w)) * w)
  {
    var m, n := Height(img), Width(img);
    var nv, nh := GridRows(img, h), GridCols(img, w);
    assert m == nv * h + m % h;
    assert n == nh * w + n % w;
    RangeSteps(0, nv, h);
    RangeSteps(0, nh, w);
    RowMajorLength(Range(0, m, h), Range(0, n, w));
    if nh > 0 {
      forall k | 0 <= k < nv * nh
        ensures RegionStarts(m, n, h, w)[k] == Point((k / nh) * h, (k % nh) * w)
      {
        RowMajorAt(Range(0, m, h), Range(0, n, w), k);
        DivBelow(k, nh, nv);
      }
    }
  }

  /** The region list has one entry per grid cell. */
  lemma RegionStartsLength(img: Image, h: nat, w: nat)
    requires Tiles(img, h, w)
    ensures |RegionStarts(Height(img), Width(img), h, w)| == GridRows(img, h) * GridCols(img, w)
  {
    var m, n := Height(img), Width(img);
    assert m == GridRows(img, h) * h + m % h;
    assert n == GridCols(img, w) * w + n % w;
    RangeSteps(0, GridRows(img, h), h);
    RangeSteps(0, GridCols(img, w), w);
    RowMajorLength(Range(0, m, h), Range(0, n, w));
  }

  /** Entry `k` of the region list, on its own. */
  lemma RegionStartAt(img: Image, h: nat, w: nat, k: int)
    requires Tiles(img, h, w)
    requires 0 <= k < GridRows(img, h) * GridCols(img, w)
    ensures GridCols(img, w) > 0
    ensures |RegionStarts(Height(img), Width(img), h, w)| == GridRows(img, h) * GridCols(img, w)
    ensures RegionStarts(Height(img), Width(img), h, w)[k]
      == Point((k / GridCols(img, w)) * h, (k % GridCols(img, w)) * w)
  {
    RegionStartsAt(img, h, w);
  }

  /** Grid cell (r, c) is entry `r * nh + c` of the region list. */
  lemma RegionStartOfCell(img: Image, h: nat, w: nat, r: int, c: int)
    requires Tiles(img, h, w)
    requires 0 <= r < GridRows(img, h) && 0 <= c < GridCols(img, w)
    ensures var k := r * GridCols(img, w) + c;
      0 <= k < |RegionStarts(Height(img), Width(img), h, w)| &&
      RegionStarts(Height(img), Width(img), h, w)[k] == Point(r * h, c * w)
  {
    var nv, nh := GridRows(img, h), GridCols(img, w);
    var k := r * nh + c;
    MulLe(r, nv - 1, nh);
    DistribSub(nv, 1, nh);
    MulLe(0, r, nh);
    RegionStartAt(img, h, w, k);
    DivMulAdd(r, nh, c);
    var q, m := k / nh, k % nh;
    assert q == r && m == c;
    assert q * h == r * h && m * w == c * w;
  }

  // ---------------------------------------------------------------------------
  // Tiling

  /** Pixel (i, j) lies in the region whose top-left pixel is `start`. */
  predicate InRegion(start: Point, h: nat, w: nat, i: int, j: int)
  {
    start.row <= i < start.row + h && start.col <= j < start.col + w
  }

  /** Position in the region list of the region that contains pixel (i, j). */
  function RegionIndex(img: Image, h: nat, w: nat, i: int, j: int): int
    requires h > 0 && w > 0
  {
    (i / h) * GridCols(img, w) + j / w
  }

  /** The regions tile the image exactly: each pixel lies in the region at
      position `RegionIndex` of the list and in no other. */
  lemma RegionsTile(img: Image, h: nat, w: nat, i: int, j: int)
    requires Tiles(img, h, w)
    requires 0 <= i < Height(img) && 0 <= j < Width(img)
    ensures 0 <= RegionIndex(img, h, w, i, j) < |RegionStarts(Height(img), Width(img), h, w)|
    ensures forall k :: 0 <= k < |RegionStarts(Height(img), Width(img), h, w)| ==>
      (InRegion(RegionStarts(Height(img), Width(img), h, w)[k], h, w, i, j) <==> k == RegionIndex(img, h, w, i, j))
  {
    var m, n := Height(img), Width(img);
    var nv, nh := GridRows(img, h), GridCols(img, w);
    var starts := RegionStarts(m, n, h, w);
    RegionStartsAt(img, h, w);
    assert m == nv * h + m % h;
    assert n == nh * w + n % w;
    DivBelow(i, h, nv);
    DivBelow(j, w, nh);
    var ri, cj := i / h, j / w;
    MulLe(ri, nv - 1, nh);
    DistribSub(nv, 1, nh);
    forall k | 0 <= k < |starts|
      ensures InRegion(starts[k], h, w, i, j) <==> k == RegionIndex(img, h, w, i, j)
    {
      DivBlock(i, h, k / nh);
      DivBlock(j, w, k % nh);
      assert k == (k / nh) * nh + k % nh;
      DivMulAdd(ri, nh, cj);
    }
  }

  /** A pixel of the image lies in a cell of the grid. */
  lemma PixelCell(img: Image, h: nat, w: nat, i: int, j: int)
    requires Tiles(img, h, w)
    requires 0 <= i < Height(img) && 0 <= j < Width(img)
    ensures 0 <= i / h < GridRows(img, h) && 0 <= j / w < GridCols(img, w)
  {
    assert Height(img) == GridRows(img, h) * h + Height(img) % h;
    assert Width(img) == GridCols(img, w) * w + Width(img) % w;
    DivBelow(i, h, GridRows(img, h));
    DivBelow(j, w, GridCols(img, w));
  }

  /** The region index of a pixel of the image is a position of the region list. */
  lemma RegionIndexBound(img: Image, h: nat, w: nat, i: int, j: int)
    requires Tiles(img, h, w)
    requires 0 <= i < Height(img) && 0 <= j < Width(img)
    ensures 0 <= RegionIndex(img, h, w, i, j) < GridRows(img, h) * GridCols(img, w)
  {
    PixelCell(img, h, w, i, j);
    var nv, nh := GridRows(img, h), GridCols(img, w);
    MulLe(i / h, nv - 1, nh);
    DistribSub(nv, 1, nh);
    MulLe(0, i / h, nh);
  }

  /** Pixel (i, j) lies in the region of cell (r, c) exactly when (r, c) is
      `(i / h, j / w)`. */
  lemma InRegionCell(h: nat, w: nat, r: int, c: int, i: int, j: int)
    requires h > 0 && w > 0
    ensures InRegion(Point(r * h, c * w), h, w, i, j) <==> i / h == r && j / w == c
  {
    DivBlock(i, h, r);
    DivBlock(j, w, c);
  }

  // ---------------------------------------------------------------------------
  // Centres

  /** The centre `(start_h + h // 2, start_w + w // 2)` of the region at `start`. */
  function CenterOf(start: Point, h: nat, w: nat): Point
  {
    Point(start.row + h / 2, start.col + w / 2)
  }

  /** The centre of grid cell (r, c). */
  function Center(h: nat, w: nat, r: int, c: int): Point
  {
    CenterOf(Point(r * h, c * w), h, w)
  }

  /** `p` is the centre of some region of the image. */
  predicate IsCenter(img: Image, h: nat, w: nat, p: Point)
    requires h > 0 && w > 0
  {
    0 <= p.row < Height(img) && 0 <= p.col < Width(img) && p.row % h == h / 2 && p.col % w == w / 2
  }

  /** The grid cell of the region a pixel belongs to. */
  function CellOf(h: nat, w: nat, p: Point): Cell
    requires h > 0 && w > 0
  {
    Cell(p.row / h, p.col / w)
  }

  /** Every region's centre lies inside the image and inside the region, and
      it determines the region: the centres are distinct. */
  lemma CenterOfCell(img: Image, h: nat, w: nat, r: int, c: int)
    requires Tiles(img, h, w)
    requires 0 <= r < GridRows(img, h) && 0 <= c < GridCols(img, w)
    ensures IsCenter(img, h, w, Center(h, w, r, c))
    ensures InRegion(Point(r * h, c * w), h, w, Center(h, w, r, c).row, Center(h, w, r, c).col)
    ensures CellOf(h, w, Center(h, w, r, c)) == Cell(r, c)
  {
    var nv, nh := GridRows(img, h), GridCols(img, w);
    assert Height(img) == nv * h + Height(img) % h;
    assert Width(img) == nh * w + Width(img) % w;
    DivMulAdd(r, h, h / 2);
    DivMulAdd(c, w, w / 2);
    MulLe(r, nv - 1, h);
    MulLe(c, nh - 1, w);
    DistribSub(nv, 1, h);
    DistribSub(nh, 1, w);
  }

  /** Every centre is the centre of exactly the cell `CellOf` names. */
  lemma CellOfCenter(img: Image, h: nat, w: nat, p: Point)
    requires Tiles(img, h, w) && IsCenter(img, h, w, p)
    ensures 0 <= CellOf(h, w, p).r < GridRows(img, h) && 0 <= CellOf(h, w, p).c < GridCols(img, w)
    ensures Center(h, w, CellOf(h, w, p).r, CellOf(h, w, p).c) == p
  {
    var nv, nh := GridRows(img, h), GridCols(img, w);
    assert Height(img) == nv * h + Height(img) % h;
    assert Width(img) == nh * w + Width(img) % w;
    DivBelow(p.row, h, nv);
    DivBelow(p.col, w, nh);
    assert p.row == (p.row / h) * h + p.row % h;
    assert p.col == (p.col / w) * w + p.col % w;
  }

  /** The centre of the region at position `k` of the region list lies in that
      region, and it is the only centre there. */
  lemma CenterRank(img: Image, h: nat, w: nat, k: int)
    requires Tiles(img, h, w)
    requires 0 <= k < GridRows(img, h) * GridCols(img, w)
    ensures var nh := GridCols(img, w);
      var p := Center(h, w, k / nh, k % nh);
      IsCenter(img, h, w, p) && RegionIndex(img, h, w, p.row, p.col) == k &&
      forall q :: IsCenter(img, h, w, q) && RegionIndex(img, h, w, q.row, q.col) == k ==> q == p
  {
    var nv, nh := GridRows(img, h), GridCols(img, w);
    DivBelow(k, nh, nv);
    CenterOfCell(img, h, w, k / nh, k % nh);
    assert k == (k / nh) * nh + k % nh;
    forall q | IsCenter(img, h, w, q) && RegionIndex(img, h, w, q.row, q.col) == k
      ensures q == Center(h, w, k / nh, k % nh)
    {
      CellOfCenter(img, h, w, q);
      DivMulAdd(q.row / h, nh, q.col / w);
    }
  }

  // ---------------------------------------------------------------------------
  // Region contents and tables

  /** The pixels of grid cell (r, c): `img[r*h : r*h + h, c*w : c*w + w]`. */
  function RegionSlice(img: Image, h: nat, w: nat, r: int, c: int): (s: Image)
    requires Tiles(img, h, w)
    requires 0 <= r < GridRows(img, h) && 0 <= c < GridCols(img, w)
    ensures |s| == h && IsRectangular(s) && Width(s) == w
  {
    RegionFits(img, h, w, r, c);
    Slice(img, r * h, c * w, h, w)
  }

  /** Pixel (a, b) of the region of cell (r, c) is pixel (r*h + a, c*w + b) of the image. */
  lemma RegionSliceAt(img: Image, h: nat, w: nat, r: int, c: int, a: int, b: int)
    requires Tiles(img, h, w)
    requires 0 <= r < GridRows(img, h) && 0 <= c < GridCols(img, w)
    requires 0 <= a < h && 0 <= b < w
    ensures r * h + a < Height(img) && c * w + b < Width(img)
    ensures RegionSlice(img, h, w, r, c)[a][b] == img[r * h + a][c * w + b]
  {
    RegionFits(img, h, w, r, c);
  }

  lemma RegionFits(img: Image, h: nat, w: nat, r: int, c: int)
    requires Tiles(img, h, w)
    requires 0 <= r < GridRows(img, h) && 0 <= c < GridCols(img, w)
    ensures 0 <= r * h && r * h + h <= Height(img) && 0 <= c * w && c * w + w <= Width(img)
  {
    var nv, nh := GridRows(img, h), GridCols(img, w);
    assert Height(img) == nv * h + Height(img) % h;
    assert Width(img) == nh * w + Width(img) % w;
    MulLe(r + 1, nv, h);
    MulLe(c + 1, nh, w);
    DistribAdd(r, 1, h);
    DistribAdd(c, 1, w);
  }

  /** Every region holds a pixel that is not 0 (an all-zero region makes the
      source divide by zero when it builds that region's table). */
  predicate RegionsNonDegenerate(img: Image, h: nat, w: nat)
    requires Tiles(img, h, w)
  {
    forall r, c :: 0 <= r < GridRows(img, h) && 0 <= c < GridCols(img, w) ==> CellNonDegenerate(img, h, w, r, c)
  }

  /** Grid cell (r, c) holds a pixel that is not 0. */
  predicate CellNonDegenerate(img: Image, h: nat, w: nat, r: int, c: int)
    requires Tiles(img, h, w)
    requires 0 <= r < GridRows(img, h) && 0 <= c < GridCols(img, w)
  {
    HasNonzeroPixel(RegionSlice(img, h, w, r, c))
  }

  /** What every operation of the adaptive engine needs of a tiled image. */
  predicate Admissible(img: Image, h: nat, w: nat)
  {
    Tiles(img, h, w) && RegionsNonDegenerate(img, h, w)
  }

  /** The equalization table of grid cell (r, c). */
  function RegionTable(img: Image, h: nat, w: nat, r: int, c: int): (t: seq<Pixel>)
    requires Admissible(img, h, w)
    requires 0 <= r < GridRows(img, h) && 0 <= c < GridCols(img, w)
    ensures |t| == Levels
  {
    assert CellNonDegenerate(img, h, w, r, c);
    EqualizationTransform(RegionSlice(img, h, w, r, c))
  }

  /** The table stored under centre `p`: `transforms_dict[p]`. */
  function TableAt(img: Image, h: nat, w: nat, p: Point): (t: seq<Pixel>)
    requires Admissible(img, h, w) && IsCenter(img, h, w, p)
    ensures |t| == Levels
  {
    CellOfCenter(img, h, w, p);
    RegionTable(img, h, w, p.row / h, p.col / w)
  }
}
