/** The per-region tables of the adaptive engine, keyed by region centre. */
module RegionTransforms {
  import opened Arith
  import opened Images
  import opened HelperFunctions
  import opened Regions

  /** A Python dictionary from centres to tables: `keys` lists the keys in
      insertion order, `tables` maps each key to its table. */
  datatype TransformDict = TransformDict(keys: seq<Point>, tables: map<Point, seq<Pixel>>)

  /** Keys listed in insertion order with every key mapped, as a dictionary
      keeps them. */
  predicate WellFormed(d: TransformDict)
  {
    (set p | p in d.keys) == d.tables.Keys &&
    forall a, b :: 0 <= a < b < |d.keys| ==> d.keys[a] != d.keys[b]
  }

  /** `d` is the dictionary `get_equalization_transform_of_regions` returns
      for the image: key `k` is the centre of region `k` of the list, the keys
      are exactly the region centres, and each maps to its region's table. */
  ghost predicate HoldsRegionTables(img: Image, h: nat, w: nat, d: TransformDict)
    requires Admissible(img, h, w)
  {
    |d.keys| == |RegionStarts(Height(img), Width(img), h, w)| &&
    (forall k :: 0 <= k < |d.keys| ==> d.keys[k] == CenterOf(RegionStarts(Height(img), Width(img), h, w)[k], h, w)) &&
    (forall p :: p in d.tables <==> IsCenter(img, h, w, p)) &&
    (forall p :: p in d.tables ==> d.tables[p] == TableAt(img, h, w, p))
  }

  /** The dictionary after the first `k` regions of the list: the centres of
      those regions, in list order, each mapped to its region's table. */
  ghost predicate FilledUpTo(img: Image, h: nat, w: nat, k: int, keys: seq<Point>, tables: map<Point, seq<Pixel>>)
    requires Admissible(img, h, w)
  {
    var nh := GridCols(img, w);
    0 <= k <= GridRows(img, h) * nh &&
    |keys| == k &&
    (nh > 0 ==> forall q :: 0 <= q < k ==> keys[q] == Center(h, w, q / nh, q % nh)) &&
    (forall p :: p in tables <==> IsCenter(img, h, w, p) && RegionIndex(img, h, w, p.row, p.col) < k) &&
    (forall p :: p in keys <==> p in tables) &&
    (forall a, b :: 0 <= a < b < k ==> keys[a] != keys[b]) &&
    (forall p :: p in tables ==> tables[p] == TableAt(img, h, w, p))
  }

  /** The empty dictionary holds the first zero regions. */
  lemma FilledNone(img: Image, h: nat, w: nat)
    requires Admissible(img, h, w)
    ensures FilledUpTo(img, h, w, 0, [], map[])
  {
    forall p | IsCenter(img, h, w, p)
      ensures RegionIndex(img, h, w, p.row, p.col) >= 0
    {
      RegionIndexBound(img, h, w, p.row, p.col);
    }
  }

  /** Storing the table of region `k` under its centre extends the dictionary
      by exactly that key. */
  lemma InsertNextCenter(img: Image, h: nat, w: nat, k: int, keys: seq<Point>, tables: map<Point, seq<Pixel>>)
    requires Admissible(img, h, w)
    requires k < GridRows(img, h) * GridCols(img, w)
    requires FilledUpTo(img, h, w, k, keys, tables)
    ensures GridCols(img, w) > 0
    ensures var c := Center(h, w, k / GridCols(img, w), k % GridCols(img, w));
      IsCenter(img, h, w, c) && c !in tables &&
      FilledUpTo(img, h, w, k + 1, keys + [c], tables[c := TableAt(img, h, w, c)])
  {
    var nh := GridCols(img, w);
    var c := Center(h, w, k / nh, k % nh);
    CenterRank(img, h, w, k);
    var keys', tables' := keys + [c], tables[c := TableAt(img, h, w, c)];
    assert c !in tables by {
      assert RegionIndex(img, h, w, c.row, c.col) == k;
    }
    forall q | 0 <= q < k + 1
      ensures keys'[q] == Center(h, w, q / nh, q % nh)
    {
      if q < k {
        assert keys'[q] == keys[q];
      }
    }
    forall p
      ensures p in tables' <==> IsCenter(img, h, w, p) && RegionIndex(img, h, w, p.row, p.col) < k + 1
    {
      if IsCenter(img, h, w, p) && RegionIndex(img, h, w, p.row, p.col) == k {
        assert p == c;
      }
    }
    forall p
      ensures p in keys' <==> p in tables'
    {
      assert p in keys' <==> p in keys || p == c;
    }
    forall a, b | 0 <= a < b < k + 1
      ensures keys'[a] != keys'[b]
    {
      if b == k {
        CenterRank(img, h, w, a);
        assert keys'[a] == Center(h, w, a / nh, a % nh);
      } else {
        assert keys'[a] == keys[a] && keys'[b] == keys[b];
      }
    }
    assert FilledUpTo(img, h, w, k + 1, keys', tables');
  }

  /** Region `k` of the list fits in the image, and the table of its slice is
      the table stored under its centre. */
  lemma StartTable(img: Image, h: nat, w: nat, k: int)
    requires Admissible(img, h, w)
    requires 0 <= k < GridRows(img, h) * GridCols(img, w)
    ensures GridCols(img, w) > 0
    ensures |RegionStarts(Height(img), Width(img), h, w)| == GridRows(img, h) * GridCols(img, w)
    ensures var start := RegionStarts(Height(img), Width(img), h, w)[k];
      var nh := GridCols(img, w);
      0 <= k / nh < GridRows(img, h) && 0 <= k % nh < nh &&
      start == Point((k / nh) * h, (k % nh) * w) &&
      0 <= start.row && 0 <= start.col &&
      CenterOf(start, h, w) == Center(h, w, k / nh, k % nh) &&
      IsCenter(img, h, w, CenterOf(start, h, w)) &&
      start.row + h <= Height(img) && start.col + w <= Width(img) &&
      Slice(img, start.row, start.col, h, w) == RegionSlice(img, h, w, k / nh, k % nh) &&
      HasNonzeroPixel(Slice(img, start.row, start.col, h, w)) &&
      EqualizationTransform(Slice(img, start.row, start.col, h, w)) == TableAt(img, h, w, CenterOf(start, h, w))
  {
    RegionStartAt(img, h, w, k);
    var nh := GridCols(img, w);
    DivBelow(k, nh, GridRows(img, h));
    RegionFits(img, h, w, k / nh, k % nh);
    assert CellNonDegenerate(img, h, w, k / nh, k % nh);
    CenterOfCell(img, h, w, k / nh, k % nh);
  }

  /** Once every region of the list is stored, every centre is a key. */
  lemma FilledAll(img: Image, h: nat, w: nat, keys: seq<Point>, tables: map<Point, seq<Pixel>>)
    requires Admissible(img, h, w)
    requires FilledUpTo(img, h, w, GridRows(img, h) * GridCols(img, w), keys, tables)
    ensures forall p :: p in tables <==> IsCenter(img, h, w, p)
    ensures WellFormed(TransformDict(keys, tables))
    ensures |keys| == |RegionStarts(Height(img), Width(img), h, w)|
    ensures forall k :: 0 <= k < |keys| ==> keys[k] == CenterOf(RegionStarts(Height(img), Width(img), h, w)[k], h, w)
  {
    var nh := GridCols(img, w);
    RegionStartsLength(img, h, w);
    assert (set p | p in keys) == tables.Keys;
    forall p | IsCenter(img, h, w, p)
      ensures RegionIndex(img, h, w, p.row, p.col) < GridRows(img, h) * nh
    {
      RegionIndexBound(img, h, w, p.row, p.col);
    }
    forall k | 0 <= k < |keys|
      ensures keys[k] == CenterOf(RegionStarts(Height(img), Width(img), h, w)[k], h, w)
    {
      RegionStartAt(img, h, w, k);
    }
  }

  /** `get_equalization_transform_of_regions`: check the region sizes, then
      store the table of every region of the list under its centre
      `(start_h + h // 2, start_w + w // 2)`. */
  method GetEqualizationTransformOfRegions(img: Image, h: nat, w: nat) returns (res: Result<TransformDict>)
    requires IsRectangular(img)
    requires Tiles(img, h, w) ==> RegionsNonDegenerate(img, h, w)
    ensures res.Err? <==> DimensionCheck(Height(img), Width(img), h, w) != Pass
    ensures res.Err? ==> res.error == DimensionCheck(Height(img), Width(img), h, w).error
    ensures res.Ok? ==> Admissible(img, h, w) && WellFormed(res.value)
    ensures res.Ok? ==> |res.value.keys| == GridRows(img, h) * GridCols(img, w)
    ensures res.Ok? ==> |res.value.keys| == |RegionStarts(Height(img), Width(img), h, w)|
    ensures res.Ok? ==> forall k :: 0 <= k < |res.value.keys| ==>
      res.value.keys[k] == CenterOf(RegionStarts(Height(img), Width(img), h, w)[k], h, w)
    ensures res.Ok? ==> forall p :: p in res.value.tables <==> IsCenter(img, h, w, p)
    ensures res.Ok? ==> forall p :: p in res.value.tables ==> res.value.tables[p] == TableAt(img, h, w, p)
  {
    var m, n := Height(img), Width(img);
    var check := DimensionCheck(m, n, h, w);
    if check.Fail? {
      return Err(check.error);
    }
    var regions := RegionStarts(m, n, h, w);
    RegionStartsLength(img, h, w);
    var keys: seq<Point> := [];
    var tables: map<Point, seq<Pixel>> := map[];
    FilledNone(img, h, w);
    for k := 0 to |regions|
      invariant FilledUpTo(img, h, w, k, keys, tables)
    {
      var start := regions[k];
      var center := CenterOf(start, h, w);
      InsertNextCenter(img, h, w, k, keys, tables);
      StartTable(img, h, w, k);
      var transform := EqualizationTransform(Slice(img, start.row, start.col, h, w));
      if center !in tables {
        keys := keys + [center];
      }
      tables := tables[center := transform];
    }
    FilledAll(img, h, w, keys, tables);
    return Ok(TransformDict(keys, tables));
  }
}
