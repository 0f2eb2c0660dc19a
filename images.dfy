/** The shared vocabulary of the engine: 8-bit grey levels, rectangular
    images stored row by row, pixel coordinates, the error kinds the engine
    raises, and the numpy operations (slicing, `flatten`) the engine uses,
    written as index arithmetic. */
module Images {
  import opened Arith

  /** An 8-bit grey level. */
  type Pixel = x: int | 0 <= x < 256

  /** A pixel coordinate (row, column): a region start or a region centre. */
  datatype Point = Point(row: int, col: int)

  datatype Error =
    | ZeroDivision       // Python's `%` by a zero region size
    | DimensionMismatch  // the `assert` on region sizes failed

  datatype Outcome = Pass | Fail(error: Error)

  datatype Result<T> = Ok(value: T) | Err(error: Error)

  /** A grey-level image as a sequence of rows. */
  type Image = seq<seq<Pixel>>

  function Height(img: Image): nat
  {
    |img|
  }

  function Width(img: Image): nat
  {
    if |img| == 0 then 0 else |img[0]|
  }

  /** Every row has the same length, as in a 2-D numpy array. */
  predicate IsRectangular(img: Image)
  {
    forall i :: 0 <= i < |img| ==> |img[i]| == Width(img)
  }

  /** Some pixel of the image is not 0. */
  predicate HasNonzeroPixel(img: Image)
  {
    exists i, j :: 0 <= i < |img| && 0 <= j < |img[i]| && img[i][j] != 0
  }

  /** The row-major sequence of all pixels (numpy's `flatten`). */
  function Flatten(img: Image): seq<Pixel>
  {
    if |img| == 0 then [] else Flatten(img[..|img| - 1]) + img[|img| - 1]
  }

  /** The `h` by `w` sub-image whose top-left pixel is (r0, c0):
      `img[r0 : r0 + h, c0 : c0 + w]`. */
  function Slice(img: Image, r0: nat, c0: nat, h: nat, w: nat): (s: Image)
    requires IsRectangular(img) && r0 + h <= Height(img) && c0 + w <= Width(img)
    ensures |s| == h && forall a :: 0 <= a < h ==> |s[a]| == w
    ensures forall a, b :: 0 <= a < h && 0 <= b < w ==> s[a][b] == img[r0 + a][c0 + b]
  {
    seq(h, a requires 0 <= a < h => img[r0 + a][c0 .. c0 + w])
  }

  lemma FlattenSnoc(img: Image, k: nat)
    requires k < |img|
    ensures Flatten(img[..k + 1]) == Flatten(img[..k]) + img[k]
  {
    assert img[..k + 1][..k] == img[..k];
  }

  /** The flattened image has one entry per pixel. */
  lemma {:induction false} FlattenLength(img: Image)
    requires IsRectangular(img)
    ensures |Flatten(img)| == Height(img) * Width(img)
  {
    var k := 0;
    while k < |img|
      invariant 0 <= k <= |img|
      invariant |Flatten(img[..k])| == k * Width(img)
    {
      FlattenSnoc(img, k);
      DistribAdd(k, 1, Width(img));
      k := k + 1;
    }
    assert img[..|img|] == img;
  }

  /** Every pixel of the image occurs in its flattening. */
  lemma {:induction false} FlattenContains(img: Image, i: nat, j: nat)
    requires i < |img| && j < |img[i]|
    ensures img[i][j] in Flatten(img)
    decreases |img|
  {
    var last := |img| - 1;
    if i < last {
      FlattenContains(img[..last], i, j);
    } else {
      assert Flatten(img)[|Flatten(img[..last])| + j] == img[i][j];
    }
  }

  /** Every entry of the flattening is a pixel of the image. */
  lemma {:induction false} FlattenMembers(img: Image, x: Pixel)
    requires x in Flatten(img)
    ensures exists i, j :: 0 <= i < |img| && 0 <= j < |img[i]| && img[i][j] == x
    decreases |img|
  {
    var last := |img| - 1;
    if x in Flatten(img[..last]) {
      FlattenMembers(img[..last], x);
      var i, j :| 0 <= i < last && 0 <= j < |img[..last][i]| && img[..last][i][j] == x;
      assert img[i][j] == x;
    } else {
      var j :| 0 <= j < |img[last]| && img[last][j] == x;
      assert img[last][j] == x;
    }
  }

  /** Slicing the whole image returns the image. */
  lemma SliceWhole(img: Image)
    requires IsRectangular(img)
    ensures Slice(img, 0, 0, Height(img), Width(img)) == img
  {
    var s := Slice(img, 0, 0, Height(img), Width(img));
    forall a | 0 <= a < |img|
      ensures s[a] == img[a]
    {
      assert |s[a]| == |img[a]|;
      forall b | 0 <= b < |img[a]|
        ensures s[a][b] == img[a][b]
      {
      }
    }
  }
}
