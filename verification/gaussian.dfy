/** The Gaussian smoothing stage on a 3-channel image: every output sample is the
    weighted sum of the same channel over the 5x5 neighbourhood of its pixel, with
    neighbours taken on the torus. Samples are exact reals. */
module GaussianFilter {
  import opened Wrap
  import opened Kernel

  /** `img` holds `width * height` pixels of three interleaved samples each
      (channels 0, 1 and 2: red, green and blue). */
  predicate IsImage(img: seq<real>, width: nat, height: nat)
  {
    width > 0 && height > 0 && |img| == width * height * 3
  }

  /** The sample of channel `c` of the pixel at linear index `p`. */
  lemma SampleInImage(p: nat, c: int, width: nat, height: nat)
    requires p < width * height && 0 <= c < 3
    ensures p * 3 + c < width * height * 3
  {
  }

  /** The contribution of the neighbour at row offset `i`, column offset `j` to
      channel `c` of the pixel `(x, y)`. */
  function Term(img: seq<real>, width: nat, height: nat, x: int, y: int, c: int, i: int, j: int): (t: real)
    requires IsImage(img, width, height) && 0 <= c < 3 && InWindow(i, j)
  {
    var p := WrapIndex(x + j, y + i, width, height);
    SampleInImage(p, c, width, height);
    img[p * 3 + c] * Weight(i, j)
  }

  /** The contributions of row offset `i`, over its first `n` column offsets. */
  function RowSum(img: seq<real>, width: nat, height: nat, x: int, y: int, c: int, i: int, n: nat): (s: real)
    requires IsImage(img, width, height) && 0 <= c < 3
    requires -Radius <= i <= Radius && n <= Size
  {
    if n == 0 then 0.0
    else RowSum(img, width, height, x, y, c, i, n - 1) + Term(img, width, height, x, y, c, i, n - 1 - Radius)
  }

  /** The contributions of the first `m` row offsets, each row taken whole. */
  function WindowSum(img: seq<real>, width: nat, height: nat, x: int, y: int, c: int, m: nat): (s: real)
    requires IsImage(img, width, height) && 0 <= c < 3 && m <= Size
  {
    if m == 0 then 0.0
    else WindowSum(img, width, height, x, y, c, m - 1) + RowSum(img, width, height, x, y, c, m - 1 - Radius, Size)
  }

  /** Channel `c` of pixel `(x, y)` after smoothing: the kernel-weighted sum of
      channel `c` over the wrapped 5x5 neighbourhood. */
  function Smoothed(img: seq<real>, width: nat, height: nat, x: int, y: int, c: int): (v: real)
    requires IsImage(img, width, height) && 0 <= c < 3
  {
    WindowSum(img, width, height, x, y, c, Size)
  }

  /** The whole smoothed image: sample `k` is channel `k % 3` of the pixel at linear
      index `k / 3`, that is, of column `(k / 3) % width` and row `(k / 3) / width`. */
  function Filtered(img: seq<real>, width: nat, height: nat): (r: seq<real>)
    requires |img| == width * height * 3
    ensures |r| == |img|
  {
    seq(width * height * 3, k requires 0 <= k < width * height * 3 =>
      Smoothed(img, width, height, (k / 3) % width, (k / 3) / width, k % 3))
  }

  /** Channel `c` of pixel `(x, y)` sits at `(y * width + x) * 3 + c` in the output. */
  lemma FilteredAt(img: seq<real>, width: nat, height: nat, x: int, y: int, c: int)
    requires IsImage(img, width, height)
    requires 0 <= x < width && 0 <= y < height && 0 <= c < 3
    ensures 0 <= (y * width + x) * 3 + c < |img|
    ensures Filtered(img, width, height)[(y * width + x) * 3 + c] == Smoothed(img, width, height, x, y, c)
  {
    var p := y * width + x;
    PixelIndexBound(x, y, width, height);
    PixelIndexDivMod(x, y, width);
    SampleInImage(p, c, width, height);
    var k := p * 3 + c;
    assert k / 3 == p && k % 3 == c;
    assert (k / 3) % width == x && (k / 3) / width == y;
  }

  /** `spec` holds the smoothed samples of pixel `(x, y)` at `(y * width + x) * 3 + c`. */
  ghost predicate PixelMatches(spec: seq<real>, img: seq<real>, width: nat, height: nat, x: int, y: int)
    requires IsImage(img, width, height)
  {
    var p := y * width + x;
    0 <= p * 3 && p * 3 + 2 < |spec|
    && spec[p * 3] == Smoothed(img, width, height, x, y, 0)
    && spec[p * 3 + 1] == Smoothed(img, width, height, x, y, 1)
    && spec[p * 3 + 2] == Smoothed(img, width, height, x, y, 2)
  }

  /** `spec` is an image of the right size holding every pixel's smoothed samples. */
  ghost predicate AllPixelsMatch(spec: seq<real>, img: seq<real>, width: nat, height: nat)
    requires |img| == width * height * 3
  {
    |spec| == |img| &&
    forall x, y :: 0 <= x < width && 0 <= y < height ==> PixelMatches(spec, img, width, height, x, y)
  }

  /** The smoothed image holds every pixel's smoothed samples where they belong. */
  lemma FilteredMatches(img: seq<real>, width: nat, height: nat)
    requires |img| == width * height * 3
    ensures AllPixelsMatch(Filtered(img, width, height), img, width, height)
  {
    forall x, y | 0 <= x < width && 0 <= y < height
      ensures PixelMatches(Filtered(img, width, height), img, width, height, x, y)
    {
      FilteredAt(img, width, height, x, y, 0);
      FilteredAt(img, width, height, x, y, 1);
      FilteredAt(img, width, height, x, y, 2);
    }
  }

  /** Some image holds every pixel's smoothed samples: the smoothed image does.
      `ApplyGaussianFilter` fills its buffer against such an image, chosen with `:|`,
      instead of against `Filtered` itself: that keeps the division and remainder by
      `width` inside `Filtered`'s element formula out of the loop's proof
      obligations, which otherwise cost the solver several times as much. */
  lemma MatchingImageExists(img: seq<real>, width: nat, height: nat)
    requires |img| == width * height * 3
    ensures exists spec :: AllPixelsMatch(spec, img, width, height)
  {
    FilteredMatches(img, width, height);
    assert AllPixelsMatch(Filtered(img, width, height), img, width, height);
  }

  /** An image holding every pixel's smoothed samples is the smoothed image: each
      sample of the output belongs to exactly one pixel and channel. */
  lemma MatchesIsFiltered(spec: seq<real>, img: seq<real>, width: nat, height: nat)
    requires |img| == width * height * 3
    requires AllPixelsMatch(spec, img, width, height)
    ensures spec == Filtered(img, width, height)
  {
    var r := Filtered(img, width, height);
    forall k | 0 <= k < |spec|
      ensures spec[k] == r[k]
    {
      var p, c := k / 3, k % 3;
      var x, y := p % width, p / width;
      assert p * 3 + c == k;
      assert p < width * height;
      assert y * width + x == p;
      assert y < height by {
        if y >= height {
          MulMonotone(height, y, width);
        }
      }
      assert PixelMatches(spec, img, width, height, x, y);
    }
  }

  /** Row `y` of the image ends no later than the image does. */
  lemma RowEndBound(y: int, width: nat, height: nat)
    requires 0 <= y < height
    ensures y * width + width <= width * height
  {
    MulMonotone(y + 1, height, width);
    assert (y + 1) * width == y * width + width;
  }

  /** Adding the neighbour at column offset `j`, which sits at linear index `p`, has
      weight `w` and samples `s0`, `s1`, `s2`, extends each channel's row sum by that
      neighbour's weighted sample. */
  lemma RowSumStep(img: seq<real>, width: nat, height: nat, x: int, y: int, i: int, j: int,
                   p: nat, w: real, s0: real, s1: real, s2: real)
    requires IsImage(img, width, height) && InWindow(i, j)
    requires p == WrapIndex(x + j, y + i, width, height) && w == Weight(i, j)
    requires p * 3 + 2 < |img| && s0 == img[p * 3] && s1 == img[p * 3 + 1] && s2 == img[p * 3 + 2]
    ensures RowSum(img, width, height, x, y, 0, i, j + 1 + Radius) == RowSum(img, width, height, x, y, 0, i, j + Radius) + s0 * w
    ensures RowSum(img, width, height, x, y, 1, i, j + 1 + Radius) == RowSum(img, width, height, x, y, 1, i, j + Radius) + s1 * w
    ensures RowSum(img, width, height, x, y, 2, i, j + 1 + Radius) == RowSum(img, width, height, x, y, 2, i, j + Radius) + s2 * w
  {
    TermAt(img, width, height, x, y, 0, i, j, p, w, s0);
    TermAt(img, width, height, x, y, 1, i, j, p, w, s1);
    TermAt(img, width, height, x, y, 2, i, j, p, w, s2);
  }

  /** The contribution of one neighbour is its sample of channel `c` times its weight. */
  lemma TermAt(img: seq<real>, width: nat, height: nat, x: int, y: int, c: int, i: int, j: int,
               p: nat, w: real, s: real)
    requires IsImage(img, width, height) && 0 <= c < 3 && InWindow(i, j)
    requires p == WrapIndex(x + j, y + i, width, height) && w == Weight(i, j)
    requires p * 3 + c < |img| && s == img[p * 3 + c]
    ensures Term(img, width, height, x, y, c, i, j) == s * w
  {
  }

  /** Computes channels 0, 1 and 2 of pixel `(x, y)` of the smoothed image, visiting
      the neighbourhood row offset by row offset and accumulating all three channels
      in one pass. */
  method SmoothPixel(image: array<real>, width: nat, height: nat, x: int, y: int)
    returns (v0: real, v1: real, v2: real)
    requires IsImage(image[..], width, height)
    ensures v0 == Smoothed(image[..], width, height, x, y, 0)
    ensures v1 == Smoothed(image[..], width, height, x, y, 1)
    ensures v2 == Smoothed(image[..], width, height, x, y, 2)
  {
    ghost var img := image[..];
    v0, v1, v2 := 0.0, 0.0, 0.0;
    for i := -Radius to Radius + 1
      invariant v0 == WindowSum(img, width, height, x, y, 0, i + Radius)
      invariant v1 == WindowSum(img, width, height, x, y, 1, i + Radius)
      invariant v2 == WindowSum(img, width, height, x, y, 2, i + Radius)
    {
      for j := -Radius to Radius + 1
        invariant v0 == WindowSum(img, width, height, x, y, 0, i + Radius) + RowSum(img, width, height, x, y, 0, i, j + Radius)
        invariant v1 == WindowSum(img, width, height, x, y, 1, i + Radius) + RowSum(img, width, height, x, y, 1, i, j + Radius)
        invariant v2 == WindowSum(img, width, height, x, y, 2, i + Radius) + RowSum(img, width, height, x, y, 2, i, j + Radius)
      {
        var pixelIndex := WrapIndex(x + j, y + i, width, height);
        var weight := Weight(i, j);
        SampleInImage(pixelIndex, 2, width, height);
        var s0, s1, s2 := image[pixelIndex * 3], image[pixelIndex * 3 + 1], image[pixelIndex * 3 + 2];
        RowSumStep(img, width, height, x, y, i, j, pixelIndex, weight, s0, s1, s2);
        v0 := v0 + s0 * weight;
        v1 := v1 + s1 * weight;
        v2 := v2 + s2 * weight;
      }
    }
  }

  /** Fills a fresh `width * height * 3` buffer with the smoothed image, pixel by
      pixel in row-major order. */
  method ApplyGaussianFilter(image: array<real>, width: nat, height: nat) returns (newImage: array<real>)
    requires DimsFit(width, height)
    requires image.Length == width * height * 3
    ensures fresh(newImage)
    ensures newImage[..] == Filtered(image[..], width, height)
  {
    newImage := new real[width * height * 3];
    ghost var img := image[..];
    MatchingImageExists(img, width, height);
    ghost var spec :| AllPixelsMatch(spec, img, width, height);
    for y := 0 to height
      modifies newImage
      invariant y * width <= width * height
      invariant forall k :: 0 <= k < y * width * 3 ==> newImage[k] == spec[k]
    {
      RowEndBound(y, width, height);
      ghost var rowStart := y * width;
      for x := 0 to width
        modifies newImage
        invariant rowStart + x <= width * height
        invariant forall k :: 0 <= k < (rowStart + x) * 3 ==> newImage[k] == spec[k]
      {
        var v0, v1, v2 := SmoothPixel(image, width, height, x, y);
        var pixelIndex := y * width + x;
        assert PixelMatches(spec, img, width, height, x, y);
        newImage[pixelIndex * 3] := v0;
        newImage[pixelIndex * 3 + 1] := v1;
        newImage[pixelIndex * 3 + 2] := v2;
      }
      assert rowStart + width == (y + 1) * width;
    }
    MatchesIsFiltered(spec, img, width, height);
    assert height * width == width * height;
  }
}
