/** Global histogram equalization: every pixel goes through the equalization
    table of the whole image. */
module GlobalHistEq {
  import opened Images
  import opened HelperFunctions

  /** `perform_global_hist_equalization`. The source also applies `np.round`
      and a cast to `uint8` to the looked-up entries; those entries are
      integers in [0, 255] already, so both steps leave them unchanged. */
  function PerformGlobalHistEqualization(img: Image): (out: Image)
    requires IsRectangular(img) && HasNonzeroPixel(img)
    ensures |out| == |img|
    ensures forall i :: 0 <= i < |img| ==> |out[i]| == |img[i]|
  {
    var t := EqualizationTransform(img);
    seq(|img|, i requires 0 <= i < |img| =>
      seq(|img[i]|, j requires 0 <= j < |img[i]| => t[img[i][j]]))
  }

  /** Each output pixel is the whole-image table's entry for the input pixel. */
  lemma GlobalPixel(img: Image, i: nat, j: nat)
    requires IsRectangular(img) && HasNonzeroPixel(img)
    requires i < |img| && j < |img[i]|
    ensures PerformGlobalHistEqualization(img)[i][j] == EqualizationTransform(img)[img[i][j]]
  {
  }

  /** The mapping keeps the order of grey levels between any two pixels. */
  lemma GlobalPreservesOrder(img: Image, i1: nat, j1: nat, i2: nat, j2: nat)
    requires IsRectangular(img) && HasNonzeroPixel(img)
    requires i1 < |img| && j1 < |img[i1]| && i2 < |img| && j2 < |img[i2]|
    requires img[i1][j1] <= img[i2][j2]
    ensures PerformGlobalHistEqualization(img)[i1][j1] <= PerformGlobalHistEqualization(img)[i2][j2]
  {
    TransformMonotone(img, img[i1][j1], img[i2][j2]);
  }

  /** Black stays black. */
  lemma GlobalKeepsBlack(img: Image, i: nat, j: nat)
    requires IsRectangular(img) && HasNonzeroPixel(img)
    requires i < |img| && j < |img[i]| && img[i][j] == 0
    ensures PerformGlobalHistEqualization(img)[i][j] == 0
  {
    TransformEndpoints(img);
  }

  /** The brightest pixels of the input become white. */
  lemma GlobalBrightestToWhite(img: Image, i: nat, j: nat)
    requires IsRectangular(img) && HasNonzeroPixel(img)
    requires i < |img| && j < |img[i]|
    requires forall a, b :: 0 <= a < |img| && 0 <= b < |img[a]| ==> img[a][b] <= img[i][j]
    ensures PerformGlobalHistEqualization(img)[i][j] == 255
  {
    TransformTopLevel(img, img[i][j]);
  }
}
