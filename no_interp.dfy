/** Adaptive equalization without interpolation: every region of the grid is
    equalized with its own table, so region boundaries stay visible. */
module NoInterp {
  import opened Arith
  import opened Images
  import opened HelperFunctions
  import opened Regions
  import opened GlobalHistEq

  /** The output pixel at (i, j): the entry, for the input pixel, of the table
      of the region that contains (i, j). */
  function NoInterpPixel(img: Image, h: nat, w: nat, i: int, j: int): (v: Pixel)
    requires Admissible(img, h, w)
    requires 0 <= i < Height(img) && 0 <= j < Width(img)
  {
    PixelCell(img, h, w, i, j);
    RegionTable(img, h, w, i / h, j / w)[img[i][j]]
  }

  /** The slice assignment `out[sr : sr + h, sc : sc + w] = table[region]`,
      one cell at a time. */
  method WriteRegion(out: array2<Pixel>, region: Image, table: seq<Pixel>, sr: nat, sc: nat, h: nat, w: nat)
    requires |region| == h && forall a :: 0 <= a < h ==> |region[a]| == w
    requires |table| == Levels
    requires sr + h <= out.Length0 && sc + w <= out.Length1
    modifies out
    ensures forall i, j :: 0 <= i < out.Length0 && 0 <= j < out.Length1 ==>
      out[i, j] == if InRegion(Point(sr, sc), h, w, i, j) then table[region[i - sr][j - sc]] else old(out[i, j])
  {
    for a := 0 to h
      invariant forall i, j :: 0 <= i < out.Length0 && 0 <= j < out.Length1 ==>
        out[i, j] == if InRegion(Point(sr, sc), a, w, i, j) then table[region[i - sr][j - sc]] else old(out[i, j])
    {
      for b := 0 to w
        invariant forall i, j :: 0 <= i < out.Length0 && 0 <= j < out.Length1 ==>
          out[i, j] == if InRegion(Point(sr, sc), a, w, i, j) || (i == sr + a && sc <= j < sc + b)
            then table[region[i - sr][j - sc]] else old(out[i, j])
      {
        out[sr + a, sc + b] := table[region[a][b]];
      }
    }
  }

  /** `adaptive_hist_eq_no_interp`: check the region sizes, then equalize the
      regions one by one in the order of the region list, writing each into a
      zero-initialised output. */
  method AdaptiveHistEqNoInterp(img: Image, h: nat, w: nat) returns (res: Result<array2<Pixel>>)
    requires IsRectangular(img)
    requires Tiles(img, h, w) ==> RegionsNonDegenerate(img, h, w)
    ensures res.Err? <==> DimensionCheck(Height(img), Width(img), h, w) != Pass
    ensures res.Err? ==> res.error == DimensionCheck(Height(img), Width(img), h, w).error
    ensures res.Ok? ==> fresh(res.value)
    ensures res.Ok? ==> res.value.Length0 == Height(img) && res.value.Length1 == Width(img)
    ensures res.Ok? ==> Admissible(img, h, w)
    ensures res.Ok? ==> forall i, j :: 0 <= i < Height(img) && 0 <= j < Width(img) ==>
      res.value[i, j] == NoInterpPixel(img, h, w, i, j)
  {
    var m, n := Height(img), Width(img);
    var out := new Pixel[m, n]((_, _) => 0);
    var check := DimensionCheck(m, n, h, w);
    if check.Fail? {
      return Err(check.error);
    }
    var regions := RegionStarts(m, n, h, w);
    RegionStartsLength(img, h, w);
    forall i, j | 0 <= i < m && 0 <= j < n
      ensures 0 <= RegionIndex(img, h, w, i, j) < |regions|
    {
      RegionIndexBound(img, h, w, i, j);
    }
    for k := 0 to |regions|
      invariant forall i, j :: 0 <= i < m && 0 <= j < n ==>
        out[i, j] == if RegionIndex(img, h, w, i, j) < k then NoInterpPixel(img, h, w, i, j) else 0
    {
      EqualizeRegion(out, img, h, w, k);
    }
    return Ok(out);
  }

  /** One pass of the loop over the region list: region `k` is equalized with
      its own table and written into its cells of `out`, after which every
      pixel of the first `k + 1` regions holds its result. */
  method EqualizeRegion(out: array2<Pixel>, img: Image, h: nat, w: nat, k: int)
    requires Admissible(img, h, w)
    requires 0 <= k < GridRows(img, h) * GridCols(img, w)
    requires out.Length0 == Height(img) && out.Length1 == Width(img)
    requires forall i, j :: 0 <= i < Height(img) && 0 <= j < Width(img) ==>
      out[i, j] == if RegionIndex(img, h, w, i, j) < k then NoInterpPixel(img, h, w, i, j) else 0
    modifies out
    ensures forall i, j :: 0 <= i < Height(img) && 0 <= j < Width(img) ==>
      out[i, j] == if RegionIndex(img, h, w, i, j) < k + 1 then NoInterpPixel(img, h, w, i, j) else 0
  {
    var m, n := Height(img), Width(img);
    var nv, nh := GridRows(img, h), GridCols(img, w);
    RegionStartAt(img, h, w, k);
    var start := RegionStarts(m, n, h, w)[k];
    var r, c := k / nh, k % nh;
    DivBelow(k, nh, nv);
    assert k == r * nh + c;
    EqualizeCell(out, img, h, w, start, r, c);
    forall i, j | 0 <= i < m && 0 <= j < n
      ensures out[i, j] == if RegionIndex(img, h, w, i, j) < k + 1 then NoInterpPixel(img, h, w, i, j) else 0
    {
      CellIndex(img, h, w, r, c, i, j);
      if InRegion(start, h, w, i, j) {
        assert RegionIndex(img, h, w, i, j) == k;
      } else {
        assert out[i, j] == old(out[i, j]);
        assert RegionIndex(img, h, w, i, j) != k;
      }
    }
  }

  /** `out[sr : sr + h, sc : sc + w] = equalization_transform(region)` for the
      region of grid cell `(r, c)`, whose corner is `start`: its pixels receive
      their results and every other pixel keeps its value. */
  method EqualizeCell(out: array2<Pixel>, img: Image, h: nat, w: nat, start: Point, ghost r: int, ghost c: int)
    requires Admissible(img, h, w)
    requires 0 <= r < GridRows(img, h) && 0 <= c < GridCols(img, w)
    requires start == Point(r * h, c * w)
    requires out.Length0 == Height(img) && out.Length1 == Width(img)
    modifies out
    ensures forall i, j :: 0 <= i < out.Length0 && 0 <= j < out.Length1 ==>
      out[i, j] == if InRegion(start, h, w, i, j) then NoInterpPixel(img, h, w, i, j) else old(out[i, j])
  {
    RegionFits(img, h, w, r, c);
    var region := Slice(img, start.row, start.col, h, w);
    assert region == RegionSlice(img, h, w, r, c);
    assert CellNonDegenerate(img, h, w, r, c);
    var transform := EqualizationTransform(region);
    assert transform == RegionTable(img, h, w, r, c);
    WriteRegion(out, region, transform, start.row, start.col, h, w);
    forall i, j | 0 <= i < out.Length0 && 0 <= j < out.Length1 && InRegion(start, h, w, i, j)
      ensures out[i, j] == NoInterpPixel(img, h, w, i, j)
    {
      CellEntry(img, h, w, r, c, i, j);
    }
  }

  /** A pixel lies in grid cell `(r, c)` exactly when its region index is
      `r * nh + c`. */
  lemma CellIndex(img: Image, h: nat, w: nat, r: int, c: int, i: int, j: int)
    requires Admissible(img, h, w)
    requires 0 <= r < GridRows(img, h) && 0 <= c < GridCols(img, w)
    requires 0 <= i < Height(img) && 0 <= j < Width(img)
    ensures InRegion(Point(r * h, c * w), h, w, i, j) <==> RegionIndex(img, h, w, i, j) == r * GridCols(img, w) + c
  {
    InRegionCell(h, w, r, c, i, j);
    PixelCell(img, h, w, i, j);
    MixedRadixUnique(i / h, j / w, r, c, GridCols(img, w));
  }

  /** A pixel of grid cell `(r, c)` sits in that cell's slice at its offset
      from the cell's corner. */
  lemma CellEntry(img: Image, h: nat, w: nat, r: int, c: int, i: int, j: int)
    requires Tiles(img, h, w)
    requires 0 <= r < GridRows(img, h) && 0 <= c < GridCols(img, w)
    requires InRegion(Point(r * h, c * w), h, w, i, j)
    ensures 0 <= i < Height(img) && 0 <= j < Width(img)
    ensures i / h == r && j / w == c
    ensures RegionSlice(img, h, w, r, c)[i - r * h][j - c * w] == img[i][j]
  {
    InRegionCell(h, w, r, c, i, j);
    RegionSliceAt(img, h, w, r, c, i - r * h, j - c * w);
  }

  /** With one region covering the whole image, the result is global
      equalization. */
  lemma NoInterpWholeImageIsGlobal(img: Image, i: int, j: int)
    requires IsRectangular(img) && HasNonzeroPixel(img)
    requires 0 <= i < Height(img) && 0 <= j < Width(img)
    ensures Admissible(img, Height(img), Width(img))
    ensures NoInterpPixel(img, Height(img), Width(img), i, j) == PerformGlobalHistEqualization(img)[i][j]
  {
    var m, n := Height(img), Width(img);
    DivMulAdd(1, m, 0);
    DivMulAdd(1, n, 0);
    SliceWhole(img);
    assert RegionSlice(img, m, n, 0, 0) == img;
    DivMulAdd(0, m, i);
    DivMulAdd(0, n, j);
  }

  /** Inside one region the output keeps the order of grey levels. */
  lemma NoInterpOrderWithinRegion(img: Image, h: nat, w: nat, i1: int, j1: int, i2: int, j2: int)
    requires Admissible(img, h, w)
    requires 0 <= i1 < Height(img) && 0 <= j1 < Width(img)
    requires 0 <= i2 < Height(img) && 0 <= j2 < Width(img)
    requires i1 / h == i2 / h && j1 / w == j2 / w
    requires img[i1][j1] <= img[i2][j2]
    ensures NoInterpPixel(img, h, w, i1, j1) <= NoInterpPixel(img, h, w, i2, j2)
  {
    PixelCell(img, h, w, i1, j1);
    var r, c := i1 / h, j1 / w;
    RegionFits(img, h, w, r, c);
    assert CellNonDegenerate(img, h, w, r, c);
    TransformMonotone(RegionSlice(img, h, w, r, c), img[i1][j1], img[i2][j2]);
  }
}
