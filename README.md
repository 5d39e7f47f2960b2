# Parallel image transforms — a verified sequential model

This project models the four pixel transforms of
`Parallel_image_processing_using_OpenMP/image_processing/main.c`:
`image_invert`, `image_rotate_90`, `image_blur` and
`image_to_grayscale_critical`. Each one works in place on a flat,
row-major buffer of `unsigned char` samples, `width × height × channels`
long. The model keeps that form:

- Each transform is a method over an `array<Byte>` that carries the
  width, height and channel count.
- Each transform is written with the same loops as the C code. The OpenMP
  pragmas are dropped, and the sequential loop order is taken as the
  reference semantics.
- Each method's postcondition ties the new buffer to a specification
  function of the old one: `Inverted`, `Rotated`, `Blurred` or
  `Grayscaled`.
- Lemmas then prove what those functions promise. Invert is an
  involution. A quarter turn is a permutation and four turns restore the
  image. Blur never writes a border sample and reads its window half
  blurred, half original. Grayscale is pixel-local.

Modules:

- `Raster` (raster.dfy): the `Byte` sample type and the layout arithmetic. `At(w, c, y, x, k) = (y*w + x)*c + k` is the index expression `image_blur` and `image_rotate_90` write out (main.c:46, 51, 64; the scratch write at main.c:64 is `At` in the turned layout, `height` pixels wide). `image_invert` and `image_to_grayscale_critical` step a flat index instead. `Row`, `Col` and `Chan` decode an index, and lemmas show the two directions agree and stay in bounds.
- `Invert` (invert.dfy): `image_invert`.
- `Grayscale` (grayscale.dfy): `image_to_grayscale_critical`. `Luma` stands in for the `double` expression `0.21 r + 0.71 g + 0.07 b`.
- `Rotate` (rotate.dfy): `image_rotate_90`. The scratch buffer is a fresh array, and the `memcpy` is a bulk copy back into the image.
- `Blur` (blur.dfy): `image_blur`. `BlurUpTo(s, …, i)` is the buffer after the in-place row-major pass has visited samples `0 .. i-1`. `Stencil` stands in for the `float` sum of nine samples weighted by `1/9`.
- `Permutation` (permutation.dfy): a sequence rearranged through a bijection of its indices has the same multiset. This is used for rotation.

Three behaviours of the code that the model keeps:

- Blur is done in place, in row-major order. It does not read from a
  separate copy of the original image. So a sample's upper and left
  neighbours are already blurred when it is computed (`Blur.BlurWindow`).
- Rotation never checks the result of `malloc`. There is no
  all-or-nothing behaviour on allocation failure to model.
- For the pixel (100, 150, 200), the grayscale formula gives
  21 + 106.5 + 14 = 141.5, which is cast to 141.

## Model

| member | source | states |
|---|---|---|
| `Invert.InvertImage` | Parallel_image_processing_using_OpenMP/image_processing/main.c:74-79 | afterwards every sample of the buffer is 255 minus its old value, and the buffer equals `Inverted` of the old buffer |
| `Invert.InvertedSum` | Parallel_image_processing_using_OpenMP/image_processing/main.c:77 | an output sample plus the input sample at the same index is 255 |
| `Invert.InvertedTwice` | Parallel_image_processing_using_OpenMP/image_processing/main.c:77 | inverting twice gives back the original buffer exactly |
| `Grayscale.Luma` | Parallel_image_processing_using_OpenMP/image_processing/main.c:22 | the luma never exceeds the largest of r, g, b, because the weights sum to 0.99; so the cast to a byte cannot overflow |
| `Grayscale.ToGrayscale` | Parallel_image_processing_using_OpenMP/image_processing/main.c:11-29 | for channels ≥ 3 (the loop reads `i+1` and `i+2`), the new buffer equals `Grayscaled` of the old one |
| `Grayscale.GrayscaledPixel` | Parallel_image_processing_using_OpenMP/image_processing/main.c:13-27 | every one of the `channels` samples of pixel p holds the same value: the luma of that pixel's original R, G, B at `p*c`, `p*c+1`, `p*c+2` |
| `Grayscale.GrayscaledLocal` | Parallel_image_processing_using_OpenMP/image_processing/main.c:14-26 | no other pixel influences a pixel's result: two buffers that agree on pixel p's R, G, B agree on all of p's samples after the transform |
| `Raster.AtBounds` | Parallel_image_processing_using_OpenMP/image_processing/main.c:64 | the index `(y*width + x)*channels + c` of an in-range row, column and channel is inside the `width*height*channels` buffer |
| `Raster.Decompose` | Parallel_image_processing_using_OpenMP/image_processing/main.c:64 | every index below `width*height*channels` is the index of some in-range row, column and channel |
| `Raster.AtInjective` | Parallel_image_processing_using_OpenMP/image_processing/main.c:64 | two in-range (row, column, channel) triples with the same index are the same triple |
| `Rotate.RotateImage` | Parallel_image_processing_using_OpenMP/image_processing/main.c:57-72 | after the scratch fill and the copy back, the buffer equals `Rotated` of the old buffer |
| `Rotate.RotatedAt` | Parallel_image_processing_using_OpenMP/image_processing/main.c:61-64 | the turned image holds old sample `(y*w + x)*c + k` at `(x*h + (h-1-y))*c + k`, and that index is in the buffer |
| `Rotate.RotatedIndex` | Parallel_image_processing_using_OpenMP/image_processing/main.c:64 | the scratch index `(x*h + (h-1-y))*c + k` of an in-range sample is below `w*h*c`, and in the turned image, `h` pixels wide, it is row x, column h-1-y, channel k |
| `Rotate.RotatedIndexInjective` | Parallel_image_processing_using_OpenMP/image_processing/main.c:61-66 | distinct source samples go to distinct scratch slots, so no slot is written twice |
| `Rotate.RotatedIndexOnto` | Parallel_image_processing_using_OpenMP/image_processing/main.c:58-69 | every scratch slot is written by some source sample before the copy back |
| `Rotate.SourceTargetInverse` | Parallel_image_processing_using_OpenMP/image_processing/main.c:64 | the destination index map and its inverse undo each other in both directions |
| `Rotate.RotatedPermutes` | Parallel_image_processing_using_OpenMP/image_processing/main.c:58-69 | the turned buffer is a permutation of the old one (equal multisets of samples) |
| `Rotate.RotatedFourTimes` | Parallel_image_processing_using_OpenMP/image_processing/main.c:57-64 | four quarter turns with the dimensions swapped each time, (w,h), (h,w), (w,h), (h,w), restore the original buffer |
| `Permutation.PermutedMultiset` | Parallel_image_processing_using_OpenMP/image_processing/main.c:58-69 | a sequence that reads another through a bijection of the indices has the same multiset |
| `Blur.BlurImage` | Parallel_image_processing_using_OpenMP/image_processing/main.c:31-55 | after the in-place loops, the buffer equals `Blurred` of the old buffer: the row-major pass over every sample |
| `Blur.GatherWindow` | Parallel_image_processing_using_OpenMP/image_processing/main.c:44-49 | the kernel loops read exactly the 3 × 3 window of channel k around pixel (y, x) in the buffer as it currently stands, row by row |
| `Blur.Stencil` | Parallel_image_processing_using_OpenMP/image_processing/main.c:42-51 | the byte written is the average of the nine window samples, truncated: nine times it is at most their sum, and nine times it plus 9 exceeds the sum |
| `Blur.StencilAtMost` | Parallel_image_processing_using_OpenMP/image_processing/main.c:42-51 | the blurred value is never brighter than the brightest sample of its window |
| `Blur.Neighbour` | Parallel_image_processing_using_OpenMP/image_processing/main.c:46 | `((y+ky)*width + (x+kx))*channels + c` is the sample ky rows down, kx columns right of the current one, in the same channel |
| `Blur.NeighbourInBounds` | Parallel_image_processing_using_OpenMP/image_processing/main.c:44-47 | for an interior sample all nine neighbour indices are inside the buffer and in the same channel; a neighbour comes before the sample in row-major order exactly when it is in the row above, or to the left in the same row |
| `Blur.BlurUpToUnchanged` | Parallel_image_processing_using_OpenMP/image_processing/main.c:39-51 | partway through the pass, the samples not yet reached and every border sample still hold their original values |
| `Blur.BlurUpToStable` | Parallel_image_processing_using_OpenMP/image_processing/main.c:51 | once the pass has moved past a sample, later steps never write that sample again |
| `Blur.BlurUpToSplit` | Parallel_image_processing_using_OpenMP/image_processing/main.c:39-51 | partway through the pass, each sample before the current one holds its final blurred value, and each sample from the current one on holds its original value |
| `Blur.BlurredBorder` | Parallel_image_processing_using_OpenMP/image_processing/main.c:39-40 | a sample of row 0, row h-1, column 0 or column w-1 is byte-identical after the blur |
| `Blur.BlurredSmall` | Parallel_image_processing_using_OpenMP/image_processing/main.c:39-40 | if width < 3 or height < 3, the whole buffer is unchanged |
| `Blur.BlurredInterior` | Parallel_image_processing_using_OpenMP/image_processing/main.c:42-51 | an interior sample ends up as the stencil of its window, read from the buffer as the pass found it |
| `Blur.BlurWindow` | Parallel_image_processing_using_OpenMP/image_processing/main.c:44-51 | window entry (ky, kx) of an interior sample is its same-channel neighbour; it already holds the final blurred value when it lies above or to the left, and the original value otherwise |
| `Blur.BlurRowEnd` | Parallel_image_processing_using_OpenMP/image_processing/main.c:39-40 | from pixel (y, w-1) up to pixel (y+1, 1), the border pixels between two rows of interior pixels, the pass writes nothing |

## Left out

- `main` (main.c:115-162) is not part of this model. It covers stb_image loading, PNG writing, file names, exit codes and the buffer copies between runs. All of this is I/O and calls into foreign libraries. Note that main.c:145 writes the turned buffer with the original width and height.
- `image_to_grayscale_race` and the globals `gray` and `i` (main.c:82-111) are not modelled. Their behaviour is an unsynchronised data race on shared globals, so it is not deterministic.
- The OpenMP pragmas (main.c:12, 20, 38, 60, 75) are left out, and so is concurrency. In invert, rotate and grayscale each loop iteration writes its own disjoint indices, so the sequential model has the same result as the parallel code. In blur, adjacent rows run in parallel may see partly blurred neighbours. The model fixes the sequential row-major order.
- Grayscale.Luma: the `double` expression `(unsigned char)(0.21*r + 0.71*g + 0.07*b)` is modelled as the exact decimal value `(21r + 71g + 7b) / 100`, truncated. Floating-point rounding can make the code differ by one where the exact value is a whole number. Only its bound (at most the largest of r, g, b) is claimed.
- Blur.Stencil: the `float` sum of nine samples each multiplied by `1.0/9.0`, then truncated, is modelled as the exact sum divided by 9. Float rounding can make the code one lower where the exact average is a whole number, so the truncated-average contract holds for the model only. The property claimed for the code is the bound of `Blur.StencilAtMost`, which rounding cannot break. Nothing about uniform images is claimed.
- The C `int` index arithmetic (for example `width * height * channels`) is not modelled with 32-bit overflow. Dimensions are natural numbers, and the buffer length equals their product, as the image loader guarantees.
- `malloc` failure in `image_rotate_90` (main.c:58) is not modelled. The source never checks it, and the model allocates a fresh array.
- Rotate.RotateImage: like the source, it does not return the new dimensions. Callers must swap width and height themselves, as `Rotate.RotatedFourTimes` does.
