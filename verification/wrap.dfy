/** Toroidal neighbour indexing: a pixel coordinate that may lie off the image is
    turned into the linear index of a pixel of a `width * height` image, with the
    left edge joined to the right one and the top edge to the bottom one. */
module Wrap {

  /** 2^32, the modulus of C's `uint32_t` arithmetic. */
  const U32: int := 0x1_0000_0000
  /** 2^31: C's `int` holds the values in `[-I32, I32)`. */
  const I32: int := 0x8000_0000

  /** Dimensions for which the C casts `(int) width`, `(int) height` are exact and
      the buffer size `width * height * 3` fits in a `uint32_t`. */
  predicate DimsFit(width: nat, height: nat)
  {
    width < I32 && height < I32 && width * height * 3 < U32
  }

  /** `v` is a value of C's 32-bit `int`. */
  predicate IsInt32(v: int)
  {
    -I32 <= v < I32
  }

  /** `(x, y)` is off the image by less than one image width or height on each axis. */
  predicate WithinOneTile(x: int, y: int, width: nat, height: nat)
  {
    -(width as int) <= x < 2 * width && -(height as int) <= y < 2 * height
  }

  /** The index computation exactly as the C code performs it: each coordinate is
      corrected by at most one addition and one subtraction of the dimension, and
      `y * width + x` is evaluated in `uint32_t`, hence modulo 2^32. */
  function WrapIndexAsWritten(x: int, y: int, width: nat, height: nat): (r: nat)
    requires DimsFit(width, height) && IsInt32(x) && IsInt32(y)
    ensures r < U32
  {
    var x1 := if x < 0 then width + x else x;
    var y1 := if y < 0 then height + y else y;
    var x2 := if x1 >= width then x1 - width else x1;
    var y2 := if y1 >= height then y1 - height else y1;
    (y2 * width + x2) % U32
  }

  /** Toroidal indexing as intended: the pixel in column `x mod width` and row
      `y mod height`, for any offset however far off the image. */
  function WrapIndex(x: int, y: int, width: nat, height: nat): (r: nat)
    requires width > 0 && height > 0
    ensures r < width * height
    ensures r % width == x % width && r / width == y % height
  {
    PixelIndexBound(x % width, y % height, width, height);
    PixelIndexDivMod(x % width, y % height, width);
    (y % height) * width + x % width
  }

  /** The row-major index of an in-range pixel lies inside the image. */
  lemma PixelIndexBound(x: int, y: int, width: nat, height: nat)
    requires 0 <= x < width && 0 <= y < height
    ensures 0 <= y * width + x < width * height
  {
    MulMonotone(y, height - 1, width);
  }

  /** Multiplying by a non-negative factor preserves `<=`. */
  lemma MulMonotone(a: int, b: int, n: int)
    requires a <= b && n >= 0
    ensures a * n <= b * n
  {
    var d := b - a;
    assert b * n == a * n + d * n;
    assert d * n >= 0;
  }

  /** Column and row are recovered from a row-major index. */
  lemma PixelIndexDivMod(x: int, y: int, width: nat)
    requires 0 <= x < width && 0 <= y
    ensures (y * width + x) / width == y && (y * width + x) % width == x
  {
    var p := y * width + x;
    var q, m := p / width, p % width;
    assert q * width + m == p;
    assert (q - y) * width == x - m;
    MultipleBound(q - y, width);
  }

  /** Euclidean remainder of a value at most one period out of `[0, n)`. */
  lemma ModWithinOnePeriod(v: int, n: int)
    requires n > 0 && -n <= v < 2 * n
    ensures v % n == if v < 0 then v + n else if v >= n then v - n else v
  {
    var w := if v < 0 then v + n else if v >= n then v - n else v;
    var k := if v < 0 then -1 else if v >= n then 1 else 0;
    assert v == k * n + w && 0 <= w < n;
    var q, m := v / n, v % n;
    assert (q - k) * n == w - m;
    MultipleBound(q - k, n);
  }

  /** A non-zero multiple of `n` is at least `n` away from zero. */
  lemma MultipleBound(d: int, n: int)
    requires n > 0
    ensures d >= 1 ==> d * n >= n
    ensures d <= -1 ==> d * n <= -n
  {
    if d >= 1 {
      assert d * n == (d - 1) * n + n;
    } else if d <= -1 {
      assert d * n == (d + 1) * n - n;
    }
  }

  /** For an offset of less than one dimension, the source's computation is the
      toroidal index: a valid pixel, in column `x mod width` and row `y mod height`. */
  lemma WrapAgrees(x: int, y: int, width: nat, height: nat)
    requires DimsFit(width, height) && IsInt32(x) && IsInt32(y)
    requires WithinOneTile(x, y, width, height)
    ensures WrapIndexAsWritten(x, y, width, height) == WrapIndex(x, y, width, height)
    ensures WrapIndexAsWritten(x, y, width, height) < width * height
  {
    ModWithinOnePeriod(x, width);
    ModWithinOnePeriod(y, height);
    var col, row := x % width, y % height;
    PixelIndexBound(col, row, width, height);
    assert 0 <= row * width + col < U32;
    assert WrapIndexAsWritten(x, y, width, height) == row * width + col;
  }

  /** Pixels on the image are left where they are: the index is the row-major one. */
  lemma WrapInRange(x: int, y: int, width: nat, height: nat)
    requires DimsFit(width, height)
    requires 0 <= x < width && 0 <= y < height
    ensures WrapIndexAsWritten(x, y, width, height) == y * width + x
  {
    PixelIndexBound(x, y, width, height);
  }

  /** One step off an edge lands on the opposite edge: column -1 is column
      `width - 1`, column `width` is column 0, and likewise for rows. */
  lemma WrapEdges(x: int, y: int, width: nat, height: nat)
    requires DimsFit(width, height)
    requires 0 <= x < width && 0 <= y < height
    ensures WrapIndexAsWritten(-1, y, width, height) == y * width + (width - 1)
    ensures WrapIndexAsWritten(width, y, width, height) == y * width
    ensures WrapIndexAsWritten(x, -1, width, height) == (height - 1) * width + x
    ensures WrapIndexAsWritten(x, height, width, height) == x
  {
    PixelIndexBound(width - 1, y, width, height);
    PixelIndexBound(0, y, width, height);
    PixelIndexBound(x, height - 1, width, height);
    PixelIndexBound(x, 0, width, height);
  }

  /** The toroidal index is periodic: moving by a whole width or height changes nothing. */
  lemma WrapPeriodic(x: int, y: int, width: nat, height: nat)
    requires width > 0 && height > 0
    ensures WrapIndex(x + width, y, width, height) == WrapIndex(x, y, width, height)
    ensures WrapIndex(x, y + height, width, height) == WrapIndex(x, y, width, height)
  {
    ModShift(x, width);
    ModShift(y, height);
  }

  /** Adding one period does not change the Euclidean remainder. */
  lemma ModShift(v: int, n: int)
    requires n > 0
    ensures (v + n) % n == v % n
  {
    var q, m := v / n, v % n;
    assert v + n == (q + 1) * n + m;
    var q2, m2 := (v + n) / n, (v + n) % n;
    assert (q2 - q - 1) * n == m - m2;
    MultipleBound(q2 - q - 1, n);
  }

  /** On an image one pixel wide, the filter's neighbour two columns to the left of
      pixel (0, 0) is corrected only to column -1, and the `uint32_t` index wraps to
      2^32 - 1: far outside the one-pixel buffer. */
  lemma WrapOverrun()
    ensures DimsFit(1, 1)
    ensures WrapIndexAsWritten(-2, 0, 1, 1) == U32 - 1
    ensures WrapIndexAsWritten(-2, 0, 1, 1) >= 1 * 1
    ensures WrapIndex(-2, 0, 1, 1) == 0
  {
  }
}
