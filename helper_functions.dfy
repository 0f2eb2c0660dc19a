/** The building blocks of histogram equalization: the 256-bin histogram of
    an image, the inclusive prefix sum, and the equalization table computed
    from the normalised cumulative distribution. */
module HelperFunctions {
  import opened Arith
  import opened Images
  import opened Rounding

  /** Number of grey levels, `L` in the source. */
  const Levels: nat := 256

  // ---------------------------------------------------------------------------
  // Histogram

  /** The histogram of a sequence of pixels, defined by the same update as the
      source's loop: start from 256 zero bins and add one to the bin of each
      pixel in turn. */
  function Histogram(s: seq<Pixel>): (hist: seq<nat>)
    ensures |hist| == Levels
  {
    if |s| == 0 then seq(Levels, _ => 0)
    else
      var prev := Histogram(s[..|s| - 1]);
      var x := s[|s| - 1];
      prev[x := prev[x] + 1]
  }

  lemma HistogramSnoc(s: seq<Pixel>, x: Pixel)
    ensures Histogram(s + [x]) == Histogram(s)[x := Histogram(s)[x] + 1]
  {
    assert (s + [x])[..|s|] == s;
  }

  /** Bin `v` of the histogram is the number of occurrences of `v`. */
  lemma {:induction false} HistogramCounts(s: seq<Pixel>, v: Pixel)
    ensures Histogram(s)[v] == multiset(s)[v]
  {
    if |s| > 0 {
      var init, x := s[..|s| - 1], s[|s| - 1];
      assert s == init + [x];
      HistogramCounts(init, v);
    }
  }

  /** Number of entries of `s` that are at most `v`. */
  function CountAtMost(s: seq<Pixel>, v: int): (c: nat)
    ensures c <= |s|
  {
    if |s| == 0 then 0
    else CountAtMost(s[..|s| - 1], v) + (if s[|s| - 1] <= v then 1 else 0)
  }

  /** All entries are at most `v` exactly when all of them are counted. */
  lemma {:induction false} CountAtMostAll(s: seq<Pixel>, v: int)
    ensures CountAtMost(s, v) == |s| <==> forall k :: 0 <= k < |s| ==> s[k] <= v
  {
    if |s| > 0 {
      var init := s[..|s| - 1];
      CountAtMostAll(init, v);
      assert forall k :: 0 <= k < |init| ==> init[k] == s[k];
    }
  }

  lemma CountAtMostSnoc(s: seq<Pixel>, x: Pixel, v: int)
    ensures CountAtMost(s + [x], v) == CountAtMost(s, v) + (if x <= v then 1 else 0)
  {
    assert (s + [x])[..|s|] == s;
  }

  // ---------------------------------------------------------------------------
  // Sums and the inclusive prefix sum

  function Sum(a: seq<int>): int
  {
    if |a| == 0 then 0 else Sum(a[..|a| - 1]) + a[|a| - 1]
  }

  /** Adding `d` to one entry adds `d` to the sum. */
  lemma {:induction false} SumBump(a: seq<int>, k: nat, d: int)
    requires k < |a|
    ensures Sum(a[k := a[k] + d]) == Sum(a) + d
  {
    var b := a[k := a[k] + d];
    var last := |a| - 1;
    assert b[..last] == if k < last then a[..last][k := a[k] + d] else a[..last];
    if k < last {
      SumBump(a[..last], k, d);
    }
  }

  /** `prefix[k] = a[0] + ... + a[k]`, for every index `k` of `a`. */
  function PrefixSums(a: seq<int>): (b: seq<int>)
    ensures |b| == |a|
  {
    seq(|a|, k requires 0 <= k < |a| => Sum(a[..k + 1]))
  }

  lemma PrefixSumsSnoc(a: seq<int>, k: nat)
    requires 0 < k < |a|
    ensures PrefixSums(a[..k + 1]) == PrefixSums(a[..k]) + [PrefixSums(a[..k])[k - 1] + a[k]]
  {
    var lhs, pre := PrefixSums(a[..k + 1]), PrefixSums(a[..k]);
    forall t | 0 <= t < k
      ensures lhs[t] == pre[t]
    {
      assert a[..k + 1][..t + 1] == a[..k][..t + 1];
    }
    assert a[..k + 1][..k + 1] == a[..k + 1];
    assert a[..k + 1][..k] == a[..k];
    assert a[..k][..k] == a[..k];
    assert lhs[k] == Sum(a[..k + 1]) == Sum(a[..k]) + a[k];
  }

  /** The prefix sums obey the source's recurrence: the first equals the first
      input and each later one adds the next input to its predecessor. */
  lemma PrefixSumsRecurrence(a: seq<int>)
    requires |a| > 0
    ensures PrefixSums(a)[0] == a[0]
    ensures forall k :: 1 <= k < |a| ==> PrefixSums(a)[k] == PrefixSums(a)[k - 1] + a[k]
  {
    assert a[..1][..0] == [];
    assert PrefixSums(a)[0] == Sum(a[..1]) == Sum(a[..1][..0]) + a[0];
    forall k | 1 <= k < |a|
      ensures PrefixSums(a)[k] == PrefixSums(a)[k - 1] + a[k]
    {
      assert a[..k + 1][..k] == a[..k];
    }
  }

  /** The last prefix sum is the sum of the whole input. */
  lemma PrefixSumsLast(a: seq<int>)
    requires |a| > 0
    ensures PrefixSums(a)[|a| - 1] == Sum(a)
  {
    assert a[..|a|] == a;
  }

  lemma {:induction false} SumPrefixMonotone(a: seq<int>, k: nat, l: nat)
    requires k <= l <= |a|
    requires forall t :: 0 <= t < |a| ==> a[t] >= 0
    ensures Sum(a[..k]) <= Sum(a[..l])
    decreases l - k
  {
    if k < l {
      SumPrefixMonotone(a, k, l - 1);
      assert a[..l][..l - 1] == a[..l - 1];
    }
  }

  /** For non-negative input the prefix sums never decrease. */
  lemma PrefixSumsMonotone(a: seq<int>)
    requires forall t :: 0 <= t < |a| ==> a[t] >= 0
    ensures forall k, l :: 0 <= k <= l < |a| ==> PrefixSums(a)[k] <= PrefixSums(a)[l]
  {
    forall k, l | 0 <= k <= l < |a|
      ensures PrefixSums(a)[k] <= PrefixSums(a)[l]
    {
      SumPrefixMonotone(a, k + 1, l + 1);
    }
  }

  /** The prefix sums of a histogram up to bin `v` count the pixels at most `v`. */
  lemma {:induction false} HistogramPrefixCounts(s: seq<Pixel>, v: Pixel)
    ensures PrefixSums(Histogram(s))[v] == CountAtMost(s, v)
  {
    if |s| > 0 {
      var init, x := s[..|s| - 1], s[|s| - 1];
      assert s == init + [x];
      HistogramPrefixCounts(init, v);
      var prev := Histogram(init);
      var next := prev[x := prev[x] + 1];
      assert Histogram(s) == next;
      assert PrefixSums(next)[v] == Sum(next[..v + 1]);
      assert PrefixSums(prev)[v] == Sum(prev[..v + 1]);
      if x <= v {
        assert next[..v + 1] == prev[..v + 1][x := prev[x] + 1];
        SumBump(prev[..v + 1], x, 1);
        assert Sum(next[..v + 1]) == Sum(prev[..v + 1]) + 1;
      } else {
        assert next[..v + 1] == prev[..v + 1];
      }
      CountAtMostSnoc(init, x, v);
      assert CountAtMost(s, v) == CountAtMost(init, v) + (if x <= v then 1 else 0);
      assert PrefixSums(prev)[v] == CountAtMost(init, v);
    } else {
      var zeros: seq<int> := Histogram(s);
      assert zeros[..v + 1] == seq(v + 1, _ => 0);
      SumZeros(v + 1);
    }
  }

  lemma {:induction false} SumZeros(k: nat)
    ensures Sum(seq(k, _ => 0)) == 0
  {
    if k > 0 {
      assert seq(k, _ => 0)[..k - 1] == seq(k - 1, _ => 0);
      SumZeros(k - 1);
    }
  }

  /** The histogram bins add up to the number of pixels. */
  lemma HistogramSum(s: seq<Pixel>)
    ensures Sum(Histogram(s)) == |s|
  {
    HistogramPrefixCounts(s, 255);
    PrefixSumsLast(Histogram(s));
    CountAtMostAll(s, 255);
  }

  // ---------------------------------------------------------------------------
  // The equalization table

  /** The cumulative counts `C` of an image: `C[v]` pixels are at most `v`.
      The source divides the histogram by the pixel count before summing;
      the table below divides by it afterwards, which is the same rational. */
  function Cdf(img: Image): (c: seq<int>)
    ensures |c| == Levels
  {
    PrefixSums(Histogram(Flatten(img)))
  }

  /** `C` starts below the pixel count when some pixel is not 0, never
      decreases, and reaches the pixel count at the last level. */
  lemma CdfFacts(img: Image)
    requires IsRectangular(img) && HasNonzeroPixel(img)
    ensures 0 <= Cdf(img)[0] < Height(img) * Width(img)
    ensures forall u, v :: 0 <= u <= v < Levels ==> Cdf(img)[u] <= Cdf(img)[v]
    ensures Cdf(img)[Levels - 1] == Height(img) * Width(img)
  {
    var flat := Flatten(img);
    FlattenLength(img);
    PrefixSumsMonotone(Histogram(flat));
    HistogramPrefixCounts(flat, 0);
    HistogramPrefixCounts(flat, 255);
    CountAtMostAll(flat, 255);
    var i, j :| 0 <= i < |img| && 0 <= j < |img[i]| && img[i][j] != 0;
    FlattenContains(img, i, j);
    CountAtMostAll(flat, 0);
  }

  /** The entry of the table for cumulative count `c`:
      `round((C[v] - C[0]) / (N - C[0]) * 255)` with `N` the pixel count. */
  function Level(c: int, c0: int, n: int): (y: Pixel)
    requires c0 <= c <= n && c0 < n
    ensures c == c0 ==> y == 0
    ensures c == n ==> y == 255
  {
    RoundWithin((c - c0) * 255, n - c0, 0, 255);
    RoundExact(0, n - c0);
    RoundExact(255, n - c0);
    RoundHalfEven((c - c0) * (Levels - 1), n - c0)
  }

  /** The histogram-equalization table of an image whose pixels are not all 0
      (for an all-zero image the source divides by zero). */
  function EqualizationTransform(img: Image): (t: seq<Pixel>)
    requires IsRectangular(img) && HasNonzeroPixel(img)
    ensures |t| == Levels
  {
    var n := Height(img) * Width(img);
    var cdf := Cdf(img);
    CdfFacts(img);
    seq(Levels, v requires 0 <= v < Levels => Level(cdf[v], cdf[0], n))
  }

  /** The table sends level 0 to 0 and level 255 to 255. */
  lemma TransformEndpoints(img: Image)
    requires IsRectangular(img) && HasNonzeroPixel(img)
    ensures EqualizationTransform(img)[0] == 0
    ensures EqualizationTransform(img)[Levels - 1] == Levels - 1
  {
    CdfFacts(img);
  }

  /** The table is non-decreasing. */
  lemma TransformMonotone(img: Image, u: Pixel, v: Pixel)
    requires IsRectangular(img) && HasNonzeroPixel(img)
    requires u <= v
    ensures EqualizationTransform(img)[u] <= EqualizationTransform(img)[v]
  {
    CdfFacts(img);
    var cdf, n := Cdf(img), Height(img) * Width(img);
    MulLe(cdf[u] - cdf[0], cdf[v] - cdf[0], 255);
    RoundMonotone((cdf[u] - cdf[0]) * 255, (cdf[v] - cdf[0]) * 255, n - cdf[0]);
  }

  /** A level that no pixel exceeds, in particular the largest level present,
      is sent to 255. */
  lemma TransformTopLevel(img: Image, v: Pixel)
    requires IsRectangular(img) && HasNonzeroPixel(img)
    requires forall i, j :: 0 <= i < |img| && 0 <= j < |img[i]| ==> img[i][j] <= v
    ensures EqualizationTransform(img)[v] == Levels - 1
  {
    CdfFacts(img);
    var flat := Flatten(img);
    FlattenLength(img);
    forall k | 0 <= k < |flat|
      ensures flat[k] <= v
    {
      FlattenMembers(img, flat[k]);
    }
    CountAtMostAll(flat, v);
    HistogramPrefixCounts(flat, v);
  }

  // ---------------------------------------------------------------------------
  // The source's two loops

  /** `image_histogram`: count each pixel of the flattened image into a
      zero-initialised array of 256 bins. */
  method ImageHistogram(img: Image) returns (hist: seq<nat>)
    ensures hist == Histogram(Flatten(img))
  {
    var bins := new nat[Levels](_ => 0);
    assert bins[..] == Histogram([]);
    for i := 0 to |img|
      invariant bins[..] == Histogram(Flatten(img[..i]))
    {
      assert Flatten(img[..i]) + img[i][..0] == Flatten(img[..i]);
      for j := 0 to |img[i]|
        invariant bins[..] == Histogram(Flatten(img[..i]) + img[i][..j])
      {
        var pixel := img[i][j];
        assert Flatten(img[..i]) + img[i][..j + 1] == (Flatten(img[..i]) + img[i][..j]) + [pixel];
        HistogramSnoc(Flatten(img[..i]) + img[i][..j], pixel);
        bins[pixel] := bins[pixel] + 1;
      }
      assert img[i][..|img[i]|] == img[i];
      FlattenSnoc(img, i);
    }
    assert img[..|img|] == img;
    hist := bins[..];
  }

  /** `cumsum`: take the first element, then append the running total plus
      each further element. The source fails on an empty input. */
  method CumSum(a: seq<int>) returns (b: seq<int>)
    requires |a| > 0
    ensures b == PrefixSums(a)
  {
    b := [a[0]];
    assert a[..1][..1] == a[..1] && a[..1][..0] == [];
    assert PrefixSums(a[..1])[0] == Sum(a[..1]) == a[0];
    for k := 1 to |a|
      invariant b == PrefixSums(a[..k])
    {
      PrefixSumsSnoc(a, k);
      b := b + [b[|b| - 1] + a[k]];
    }
    assert a[..|a|] == a;
  }
}
