/** What the Gaussian stage promises beyond computing its sums: for the image sizes
    the source handles, its own index computation reads only inside the input and
    agrees with the toroidal index; every output sample is written at exactly one
    place; channels never mix; and, because the weights add up to one, a uniform
    image comes out unchanged. */
module GaussianProperties {
  import opened Wrap
  import opened Kernel
  import opened GaussianFilter

  /** For images at least two pixels wide and tall, each neighbour index that the
      source computes for the 5x5 window is the toroidal index, and all three
      samples read there lie inside the `width * height * 3` input. */
  lemma AsWrittenReadsInBounds(x: int, y: int, i: int, j: int, width: nat, height: nat)
    requires DimsFit(width, height) && width >= 2 && height >= 2
    requires 0 <= x < width && 0 <= y < height && InWindow(i, j)
    ensures WrapIndexAsWritten(x + j, y + i, width, height) == WrapIndex(x + j, y + i, width, height)
    ensures WrapIndexAsWritten(x + j, y + i, width, height) * 3 + 2 < width * height * 3
  {
    WrapAgrees(x + j, y + i, width, height);
  }

  /** The output slot `(y * width + x) * 3 + c` determines the pixel and the channel:
      no slot is written twice. */
  lemma WriteIndexInjective(x: int, y: int, c: int, x2: int, y2: int, c2: int, width: nat)
    requires 0 <= x < width && 0 <= y && 0 <= c < 3
    requires 0 <= x2 < width && 0 <= y2 && 0 <= c2 < 3
    requires (y * width + x) * 3 + c == (y2 * width + x2) * 3 + c2
    ensures x == x2 && y == y2 && c == c2
  {
    var k := (y * width + x) * 3 + c;
    assert k / 3 == y * width + x && k % 3 == c;
    assert k / 3 == y2 * width + x2 && k % 3 == c2;
    PixelIndexDivMod(x, y, width);
    PixelIndexDivMod(x2, y2, width);
  }

  /** Every slot of the `width * height * 3` output is the slot of some pixel and
      channel: no slot is left unwritten. */
  lemma WriteIndexOnto(k: int, width: nat, height: nat)
    requires 0 <= k < width * height * 3
    ensures width > 0
    ensures var x, y, c := (k / 3) % width, (k / 3) / width, k % 3;
      0 <= x < width && 0 <= y < height && 0 <= c < 3 && (y * width + x) * 3 + c == k
  {
    var p := k / 3;
    assert p < width * height;
    assert width > 0;
    var x, y := p % width, p / width;
    assert y * width + x == p;
    assert y < height by {
      if y >= height {
        MulMonotone(height, y, width);
      }
    }
  }

  /** `img` has colour `color[c]` in channel `c` at every pixel. */
  predicate Uniform(img: seq<real>, color: seq<real>)
  {
    |color| == 3 && forall k :: 0 <= k < |img| ==> img[k] == color[k % 3]
  }

  /** `v` times the weight fraction `n / 273`. */
  function Scaled(v: real, n: int): (s: real)
  {
    v * (n as real / Denominator as real)
  }

  /** Scaling by two fractions of the denominator adds up like their numerators. */
  lemma ScaledAdd(v: real, a: int, b: int)
    ensures Scaled(v, a) + Scaled(v, b) == Scaled(v, a + b)
  {
  }

  /** Scaling by the whole denominator is the identity. */
  lemma ScaledWhole(v: real)
    ensures Scaled(v, Denominator) == v
  {
  }

  /** Over a uniform image, each neighbour contributes the colour times its weight. */
  lemma UniformTerm(img: seq<real>, width: nat, height: nat, x: int, y: int, c: int,
                    i: int, j: int, color: seq<real>)
    requires IsImage(img, width, height) && 0 <= c < 3 && InWindow(i, j)
    requires Uniform(img, color)
    ensures Term(img, width, height, x, y, c, i, j) == Scaled(color[c], Numerator(i, j))
  {
    var p := WrapIndex(x + j, y + i, width, height);
    SampleInImage(p, c, width, height);
    assert (p * 3 + c) % 3 == c;
    TermAt(img, width, height, x, y, c, i, j, p, Weight(i, j), color[c]);
  }

  /** Over a uniform image, a row's contributions are the colour times the row's
      share of the weights. */
  lemma {:induction false} UniformRowSum(img: seq<real>, width: nat, height: nat, x: int, y: int, c: int,
                                         i: int, n: nat, color: seq<real>)
    requires IsImage(img, width, height) && 0 <= c < 3
    requires -Radius <= i <= Radius && n <= Size
    requires Uniform(img, color)
    ensures RowSum(img, width, height, x, y, c, i, n) == Scaled(color[c], RowNumeratorSum(i, n))
  {
    if n > 0 {
      UniformRowSum(img, width, height, x, y, c, i, n - 1, color);
      UniformTerm(img, width, height, x, y, c, i, n - 1 - Radius, color);
      ScaledAdd(color[c], RowNumeratorSum(i, n - 1), Numerator(i, n - 1 - Radius));
    }
  }

  /** Over a uniform image, the contributions of the first `m` rows are the colour
      times those rows' share of the weights. */
  lemma {:induction false} UniformWindowSum(img: seq<real>, width: nat, height: nat, x: int, y: int, c: int,
                                            m: nat, color: seq<real>)
    requires IsImage(img, width, height) && 0 <= c < 3 && m <= Size
    requires Uniform(img, color)
    ensures WindowSum(img, width, height, x, y, c, m) == Scaled(color[c], NumeratorSum(m))
  {
    if m > 0 {
      UniformWindowSum(img, width, height, x, y, c, m - 1, color);
      UniformRowSum(img, width, height, x, y, c, m - 1 - Radius, Size, color);
      ScaledAdd(color[c], NumeratorSum(m - 1), RowNumeratorSum(m - 1 - Radius, Size));
    }
  }

  /** Smoothing a uniform image leaves every sample at its colour, because the
      weights add up to one. */
  lemma UniformPixelUnchanged(img: seq<real>, width: nat, height: nat, x: int, y: int, c: int, color: seq<real>)
    requires IsImage(img, width, height) && 0 <= c < 3
    requires Uniform(img, color)
    ensures Smoothed(img, width, height, x, y, c) == color[c]
  {
    UniformWindowSum(img, width, height, x, y, c, Size, color);
    NumeratorsSumToDenominator();
    ScaledWhole(color[c]);
  }

  /** A uniform image is a fixed point of the Gaussian stage. */
  lemma UniformImageUnchanged(img: seq<real>, width: nat, height: nat, color: seq<real>)
    requires |img| == width * height * 3
    requires Uniform(img, color)
    ensures Filtered(img, width, height) == img
  {
    var r := Filtered(img, width, height);
    forall k | 0 <= k < |img|
      ensures r[k] == img[k]
    {
      WriteIndexOnto(k, width, height);
      UniformPixelUnchanged(img, width, height, (k / 3) % width, (k / 3) / width, k % 3, color);
    }
  }

  /** `img1` and `img2` have the same size and agree on channel `c`. */
  predicate SameChannel(img1: seq<real>, img2: seq<real>, c: int)
  {
    |img1| == |img2| && forall k :: 0 <= k < |img1| && k % 3 == c ==> img1[k] == img2[k]
  }

  /** A neighbour's contribution to channel `c` reads channel `c` only. */
  lemma TermChannel(img1: seq<real>, img2: seq<real>, width: nat, height: nat,
                    x: int, y: int, c: int, i: int, j: int)
    requires IsImage(img1, width, height) && 0 <= c < 3 && InWindow(i, j)
    requires SameChannel(img1, img2, c)
    ensures IsImage(img2, width, height)
    ensures Term(img1, width, height, x, y, c, i, j) == Term(img2, width, height, x, y, c, i, j)
  {
    var p := WrapIndex(x + j, y + i, width, height);
    SampleInImage(p, c, width, height);
    assert (p * 3 + c) % 3 == c;
  }

  /** A row's contributions to channel `c` read channel `c` only. */
  lemma {:induction false} RowSumChannel(img1: seq<real>, img2: seq<real>, width: nat, height: nat,
                                         x: int, y: int, c: int, i: int, n: nat)
    requires IsImage(img1, width, height) && 0 <= c < 3
    requires -Radius <= i <= Radius && n <= Size
    requires SameChannel(img1, img2, c)
    ensures IsImage(img2, width, height)
    ensures RowSum(img1, width, height, x, y, c, i, n) == RowSum(img2, width, height, x, y, c, i, n)
  {
    if n > 0 {
      RowSumChannel(img1, img2, width, height, x, y, c, i, n - 1);
      TermChannel(img1, img2, width, height, x, y, c, i, n - 1 - Radius);
    }
  }

  /** The window's contributions to channel `c` read channel `c` only. */
  lemma {:induction false} WindowSumChannel(img1: seq<real>, img2: seq<real>, width: nat, height: nat,
                                            x: int, y: int, c: int, m: nat)
    requires IsImage(img1, width, height) && 0 <= c < 3 && m <= Size
    requires SameChannel(img1, img2, c)
    ensures IsImage(img2, width, height)
    ensures WindowSum(img1, width, height, x, y, c, m) == WindowSum(img2, width, height, x, y, c, m)
  {
    if m > 0 {
      WindowSumChannel(img1, img2, width, height, x, y, c, m - 1);
      RowSumChannel(img1, img2, width, height, x, y, c, m - 1 - Radius, Size);
    }
  }

  /** Channels stay separate: two images that agree on channel `c` are smoothed to
      images that agree on channel `c`, whatever their other channels hold. */
  lemma ChannelsSeparate(img1: seq<real>, img2: seq<real>, width: nat, height: nat, c: int)
    requires |img1| == width * height * 3 && 0 <= c < 3
    requires SameChannel(img1, img2, c)
    ensures SameChannel(Filtered(img1, width, height), Filtered(img2, width, height), c)
  {
    var r1, r2 := Filtered(img1, width, height), Filtered(img2, width, height);
    forall k | 0 <= k < |r1| && k % 3 == c
      ensures r1[k] == r2[k]
    {
      WriteIndexOnto(k, width, height);
      WindowSumChannel(img1, img2, width, height, (k / 3) % width, (k / 3) / width, c, Size);
    }
  }
}
