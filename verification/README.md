# Gaussian smoothing with toroidal borders

This project models the serial Gaussian smoothing stage of an edge-detection
pipeline. The input is an RGB image of `width * height` pixels held as one buffer
of `width * height * 3` interleaved samples. The stage replaces every sample by the
weighted sum of the same channel over the 5x5 neighbourhood of its pixel. The
weights come from a fixed kernel (sigma = 1.0) of integer numerators over 273.
Neighbours that fall off the image are taken from the opposite edge, so the image
behaves like a torus.

The project has three parts:

- `wrap.dfy` (module `Wrap`) covers the neighbour-index computation.
  - `WrapIndexAsWritten` is the C function step by step. Each coordinate gets at
    most one addition and one subtraction of the dimension, then
    `y * width + x` is evaluated in `uint32_t`.
  - `WrapIndex` is the intended toroidal index, built on Euclidean `mod`.
  - Lemmas relate the two and list the border cases.
- `kernel.dfy` (module `Kernel`) holds the 5x5 kernel as exact numerators over 273.
  It proves that the numerators sum to 273, that the kernel is symmetric, and that
  the weights fall off away from the centre.
- `gaussian.dfy` (module `GaussianFilter`) holds the filter. `Smoothed` and
  `Filtered` are the specification: the weighted sum for one sample, and the
  whole output image. `ApplyGaussianFilter` and `SmoothPixel` are the nested loops
  of the C function, working over arrays and proved equal to that specification.
- `gaussian_properties.dfy` (module `GaussianProperties`) proves what the stage
  promises beyond that:
  - the source's own index stays inside the buffer on images at least 2x2;
  - every output slot is written exactly once;
  - channels never mix;
  - a uniform image comes out unchanged.

Samples and weights are exact `real`s. Floating-point rounding and the order of
accumulation are therefore not modelled. The dimensions are assumed to make the
C casts exact and to keep `width * height * 3` within 32 bits (`Wrap.DimsFit`).

`calculate_index_with_wrap_around` is meant to wrap every 5x5 neighbour onto the
torus. On images one pixel wide or one pixel tall it does not, because the kernel
radius of 2 then exceeds the dimension. `WrapIndexAsWritten` follows the code. The
filter reads through the corrected `WrapIndex`, which agrees with the code on
images at least 2x2 (`GaussianProperties.AsWrittenReadsInBounds`); see "Findings".

## Model

| member | source | states |
|---|---|---|
| Wrap.WrapIndexAsWritten | main.c:15-21 | The index exactly as the C code computes it. There is one conditional add and one conditional subtract per axis, and `y * width + x` wraps modulo 2^32. The result is always a `uint32_t` value. |
| Wrap.WrapIndex | main.c:15-21 | Intended toroidal index, for any offset. It is a valid pixel index (`< width * height`) whose column is `x mod width` and whose row is `y mod height`, with Euclidean `mod`. |
| Wrap.WrapAgrees | main.c:16-20 | Take `-width <= x < 2 * width` and `-height <= y < 2 * height`. Then the C computation equals `(y mod height) * width + (x mod width)` and is `< width * height`. |
| Wrap.WrapInRange | main.c:15-20 | An on-image coordinate is left as it is: the result is `y * width + x`. |
| Wrap.WrapEdges | main.c:16-19 | Column -1 maps to column `width - 1` and column `width` to column 0, in the same row. Row -1 maps to row `height - 1` and row `height` to row 0, in the same column. |
| Wrap.WrapPeriodic | main.c:16-19 | Moving a coordinate by a whole width or height does not change the toroidal index. |
| Wrap.WrapOverrun | main.c:15-21 | Counterexample on a 1x1 image: offset -2 is corrected only to -1, and the C index wraps to 2^32 - 1, outside the image. The toroidal index is 0. |
| Wrap.PixelIndexBound | main.c:96 | The row-major index `y * width + x` of an on-image pixel lies inside the image. |
| Wrap.PixelIndexDivMod | main.c:96 | Column and row are recovered from a row-major index by `mod` and division by `width`. |
| Kernel.Numerator | main.c:39-45 | Each kernel numerator, for offsets within the 5x5 window, is between 1 and 41. |
| Kernel.Weight | main.c:39-45 | Each weight `numerator / 273` lies strictly between 0 and 1. |
| Kernel.NumeratorsSumToDenominator | main.c:39-45 | The 25 numerators sum to 273, so the weights sum to 1. |
| Kernel.KernelSymmetric | main.c:39-45 | The kernel is unchanged by transposition, by reversing the rows and by reversing the columns. |
| Kernel.KernelDecays | main.c:39-45 | Moving an offset closer to the centre on either axis never lowers its weight. |
| GaussianFilter.RowSumStep | main.c:86-92 | Proof helper (unfolds `RowSum` and `Term` by one step). One inner-loop step adds to each channel that channel's sample at the wrapped neighbour, times the kernel weight. |
| GaussianFilter.SmoothPixel | main.c:79-93 | The three accumulators end up equal to the kernel-weighted sums of channels 0, 1 and 2 over the wrapped 5x5 neighbourhood of `(x, y)`. |
| GaussianFilter.FilteredAt | main.c:96-99 | Channel `c` of pixel `(x, y)` sits at `(y * width + x) * 3 + c`, inside the output, and holds that pixel's smoothed sample. |
| GaussianFilter.MatchesIsFiltered | main.c:77-99 | A buffer of `width * height * 3` samples holding each pixel's smoothed samples at its three slots is exactly the smoothed image. No slot is left over. |
| GaussianFilter.ApplyGaussianFilter | main.c:73-109 | Returns a fresh buffer of `width * height * 3` samples equal to the smoothed input image. |
| GaussianProperties.AsWrittenReadsInBounds | main.c:75-92 | On images at least 2x2, for every pixel and kernel offset, the C index equals the toroidal index. All three samples read there lie inside the `width * height * 3` input. |
| GaussianProperties.WriteIndexInjective | main.c:96-99 | Different (pixel, channel) pairs are written to different output slots. |
| GaussianProperties.WriteIndexOnto | main.c:74-99 | Every slot of the `width * height * 3` output is `(y * width + x) * 3 + c` for some on-image pixel and channel. So every slot is written. |
| GaussianProperties.ScaledAdd | main.c:39-45 | Proof helper (real arithmetic). Fractions of 273 add up like their numerators when scaled by a sample. |
| GaussianProperties.ScaledWhole | main.c:39-45 | Proof helper (real arithmetic). A sample scaled by 273/273 is unchanged. |
| GaussianProperties.UniformTerm | main.c:87-92 | In a uniform image, a neighbour's contribution is the colour times its weight. |
| GaussianProperties.UniformRowSum | main.c:82-92 | In a uniform image, a kernel row contributes the colour times that row's share of the weights. |
| GaussianProperties.UniformWindowSum | main.c:81-93 | In a uniform image, the first `m` kernel rows contribute the colour times their share of the weights. |
| GaussianProperties.UniformPixelUnchanged | main.c:79-93 | In a uniform image, every smoothed sample equals the colour of its channel. |
| GaussianProperties.UniformImageUnchanged | main.c:73-109 | A uniform image is a fixed point of the smoothing stage. |
| GaussianProperties.TermChannel | main.c:87-92 | A neighbour's contribution to channel `c` depends only on channel `c` of the input. |
| GaussianProperties.RowSumChannel | main.c:82-92 | A kernel row's contribution to channel `c` depends only on channel `c` of the input. |
| GaussianProperties.WindowSumChannel | main.c:81-93 | The whole window's contribution to channel `c` depends only on channel `c` of the input. |
| GaussianProperties.ChannelsSeparate | main.c:79-99 | Two images that agree on channel `c` are smoothed to images that agree on channel `c`. |

## Left out

- `main` (main.c:47-71) and `write_intermediate_image` (main.c:25-31): PNG decoding and encoding through lodepng, file paths and printing are I/O and foreign calls.
- `float_array_to_uint8_array` (main.c:8-13), the byte-to-float loop in `main`, and `convertToFloatArray` / `convertToByteArray` in `opencl.c`. Their behaviour depends on IEEE `float` rounding and truncating casts.
- The rest of `opencl.c`: OpenCL platform and device discovery, program build, buffers and kernel enqueue. This is device plumbing.
- The grayscale, Sobel, thinning and hysteresis stages. Their kernels live in `compute.cl`, which is not part of this model.
- Floating point: samples and weights are exact reals, so rounding and the order of accumulation are not modelled. The uniform fixed point holds only over exact arithmetic.
- The call to `write_intermediate_image` inside `apply_gaussian_filter` (main.c:103-105), active because main.c:6 defines `WRITE_INTERMEDIATE_IMAGES` as 1: it only writes the output to a PNG file, which is I/O.
- The unchecked `malloc` at main.c:74: Dafny's `new` cannot fail, so the model does not capture a NULL buffer being written through.
- `free(image)` at main.c:107: the model has no deallocation. The input array is simply no longer used.
- The uninitialised contents of the freshly allocated output buffer: the new array's initial values are never read, so they do not matter.
- `uint32_t` overflow of `width * height * 3`, and `(int)` casts of dimensions of 2^31 or more. These are excluded by the precondition `Wrap.DimsFit` rather than modelled.
- GaussianFilter.ApplyGaussianFilter: reads neighbours through the corrected `Wrap.WrapIndex`, not the C index. On images at least 2x2 the two agree (`GaussianProperties.AsWrittenReadsInBounds`). On images one pixel wide or tall the C code reads out of bounds, and that read is not modelled; see "Findings".

## Findings

| source | as written | input that shows it | evidently intended | confidence | as-written member | corrected member |
|---|---|---|---|---|---|---|
| main.c:15-21, used at main.c:81-92 | A single conditional add or subtract of the dimension cannot bring back an offset larger than the dimension. The filter's offsets reach 2, so on an image 1 pixel wide (or tall) coordinate -2 becomes -1. The `uint32_t` index `y * width + x` then wraps to 2^32 - 1, and the read `image[pixel_index * 3]` is far outside the buffer. | `width = 1`, `height = 1`, pixel (0, 0), column offset `j = -2` | the toroidal index `(y mod height) * width + (x mod width)` with Euclidean `mod` | high (not executed) | Wrap.WrapOverrun | Wrap.WrapIndex |
