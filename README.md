# MulThrProg blur: BMP codec and 3x3 mean filter

A Dafny model of the two pieces of the MulThrProg image blurrer.

**The 32-bpp BMP codec (`bmp.c`)** does four things:
- validates the parsed header;
- allocates an image of `|height_px|` rows of `width_px` pixels, releasing every row again when an allocation fails;
- fills the rows row-major from the bytes that follow the header, stopping at the first pixel the stream no longer holds;
- writes an image back out as the header followed by every row and its zero padding.

**The blur filter (`filter.c`)** does three things:
- `applyFilter` replaces red, green and blue of one output pixel with the truncated mean of the in-image cells of the 3x3 window around it in the input image;
- `apply` does that for every pixel in row-major order;
- `applyParallel` splits the rows among `numThreads` workers and has each worker filter its own block of rows.

## How it is modelled

- `image.dfy` (module `BmpImage`) holds the data.
  - A pixel is a datatype of four bytes in BGRA order.
  - The parsed header is a datatype. Its field `type` is called `fileType`, because `type` is a Dafny keyword.
  - An image is a class `Image`. It holds the header, `normHeight`, `bytesPerPixel`, and a row index `pixels` whose rows are separate `array<Pixel>` objects.
  - The row index never changes once the image exists. The pixels inside the rows are updated in place.
  - `Contents()` is the value of all pixels as a grid. The contracts are stated against it.
- `bmp_codec.dfy` (module `BmpCodec`) models `bmp.c`.
  - The header arrives already parsed, and the data after it is a sequence of bytes.
  - Whether each allocation succeeds comes from an `Allocator` argument. It covers the image record, the row index and each row.
  - A ghost set tracks which rows are still allocated.
  - The loop over one row's pixels in `readImageData` (bmp.c:108-114) is its own method, `ReadRow`. It reports whether the row was read in full; when it was not, `ReadImageData` returns, as the code does at its first short read.
  - Encoding is specified by the function `EncodeRows`. The round trip `EncodeThenReadPixels` proves that reading that encoding back gives the image.
- `blur_spec.dfy` (module `BlurSpec`) states what the filter computes, as values:
  - the window count and sums;
  - one filtered pixel;
  - rows and blocks of rows filtered;
  - the partition of rows among workers;
  - the output of running workers in any order.
- `filter.dfy` (module `Filter`) holds the loops of `filter.c` as methods. Each is proved against those functions.
  - The window loop of `applyFilter` is its own method, `WindowSums`.
  - The loop over one row's pixels, written out in both `apply` (filter.c:36-38) and `filterThreadWorker` (filter.c:57-59), is one method, `ApplyRow`, which both call.
  - The workers of `applyParallel` run one after another, in thread order.
  - `AnyScheduleIsBlurred` shows that the order does not matter. Every worker reads only the input image, and filtering a row twice leaves it as filtering it once.

## Model

| member | source | states |
|---|---|---|
| BmpCodec.CheckBMPValid | bmp.c:210-228 | the header is accepted exactly when the magic is 0x4D42, bits per pixel is 32, planes is 1 and compression is 0 |
| BmpCodec.CreateBMPImage | bmp.c:32-88 | a failed record allocation or an invalid header gives an error and no image. Otherwise the result is an image exactly when the row index and every row allocate. The image has the header, `normHeight = abs(height_px)`, `bytesPerPixel = bits_per_pixel / 8 = 4`, and `normHeight` fresh, distinct rows of `width_px` pixels. On any error nothing is left allocated; on success exactly the image and its rows are. |
| BmpCodec.ReadPixels | bmp.c:106-115 | reading the stream row-major into a grid of the same shape: pixel (r, c) is stream pixel `r*w + c` when the stream holds it, and keeps its old value otherwise |
| BmpCodec.ReadRowPixels | bmp.c:108-114 | one row read from stream pixel `start` on: pixel `c` is stream pixel `start + c` when the stream holds it, and keeps its old value otherwise |
| BmpCodec.ReadImageData | bmp.c:93-116 | no image, or `dataSize <= 0`, changes nothing. Otherwise pixel (r, c) becomes stream pixel `r*width_px + c` when the stream holds all its bytes. Every pixel from the first missing one on keeps its old value. Only the image's rows are written. |
| BmpCodec.ReadRow | bmp.c:108-114 | pixel `c` of row `row` becomes stream pixel `row*width_px + c` when the stream holds all its bytes and keeps its old value otherwise. The result is true exactly when the stream holds the row's last pixel. Only that row is written. |
| BmpCodec.MissingPixelsFrom | bmp.c:110-113 | once a pixel of a row is missing from the stream, every later pixel of the row keeps its old value, and the row is incomplete |
| BmpCodec.ShortReadLeavesRest | bmp.c:106-115 | once a read comes up short, every row below keeps its old value, so stopping early loses nothing the stream holds |
| BmpCodec.ReadImage | bmp.c:121-139 | decoding fails exactly as `CreateBMPImage` fails, and then nothing is left allocated. On success the image and every one of its rows are fresh, exactly they are left allocated, and the image has the derived geometry. When `size > 0`, every pixel the stream holds is that stream pixel. |
| BmpCodec.RowPadding | bmp.c:165 | the padding is between 0 and 3 bytes, brings the row to a multiple of four bytes, and is 0 exactly when the row already is one |
| BmpCodec.NoPaddingFor32Bpp | bmp.c:165 | rows of 4-byte pixels get no padding |
| BmpCodec.WriteImage | bmp.c:144-189 | no image writes nothing. Otherwise the file is the header followed by the encoding of the image's rows, in order, each followed by the row padding. |
| BmpCodec.EncodeRows | bmp.c:168-184 | the pixel data written for a grid: each row's pixel bytes in BGRA order, followed by `pad` zero bytes |
| BmpCodec.RowBytesAt | bmp.c:170 | byte `4c + b` of a written row is byte `b` of pixel `c` in BGRA order |
| BmpCodec.EncodeRowsLength | bmp.c:168-184 | the pixel data has `4*width_px + padding` bytes per row |
| BmpCodec.EncodeRowsLayout | bmp.c:168-184 | row `r` starts at byte `r * stride`, with its pixel bytes followed by zero padding bytes |
| BmpCodec.EncodedPixelAt | bmp.c:170 | stream pixel `r*w + c` of the unpadded encoding is pixel (r, c) |
| BmpCodec.EncodeThenReadPixels | bmp.c:165-184 | reading back (bmp.c:106-115) the pixel bytes written for a 32-bpp image reproduces every pixel, whatever the rows held before |
| BmpCodec.FreeImage | bmp.c:193-204 | afterwards every row of the image and the image itself are released, and nothing else is. No image releases nothing. |
| BlurSpec.WindowCount | filter.c:14-24 | the number of in-image cells among the first `k` cells the nested loops visit, at most `k` |
| BlurSpec.WindowSum | filter.c:14-24 | the sum of one channel over the in-image cells among the first `k` visited, between 0 and 255 times their count |
| BlurSpec.CountIsProduct | filter.c:14-24 | the number of in-image window cells is the number of in-image columns times the number of in-image rows among x-1..x+1 and y-1..y+1 |
| BlurSpec.CountBounds | filter.c:14-24 | for a pixel of the image the count is between 1 and 9, so the division never divides by zero |
| BlurSpec.CountInTwoByTwo | filter.c:14-24 | every pixel of a 2x2 image sees 4 cells |
| BlurSpec.CountInInterior | filter.c:14-24 | a pixel with a neighbour on every side sees 9 cells |
| BlurSpec.WindowSumBound | filter.c:10-24 | each channel sum is between 0 and 9*255, so it cannot overflow an int |
| BlurSpec.WindowStep | filter.c:16-22 | visiting cell (i, j) adds 1 to the count and the cell's channels to the sums exactly when the cell is in the image |
| BlurSpec.Mean | filter.c:27-29 | the mean `m` of `n` values summing to `s` is the byte with `m*n <= s < (m+1)*n`, the truncated quotient |
| BlurSpec.FilterPixel | filter.c:9-30 | the filtered pixel keeps alpha. Each colour channel times the count brackets the window sum, as a truncated mean does. |
| BlurSpec.FilterPixelValue | filter.c:27-29 | each colour channel of the filtered pixel is the window sum divided by the count, truncating |
| BlurSpec.FilterPixelIdempotent | filter.c:9-30 | filtering depends only on the input image, so filtering an output pixel a second time against the same input, as a worker run again would, gives the same pixel |
| BlurSpec.WindowSumUniform | filter.c:14-24 | over a window whose cells all hold `v`, the sum is `v` times the count |
| BlurSpec.SolidColourUnchanged | filter.c:14-29 | on a solid-colour image the filtered pixel has that colour's red, green and blue |
| BlurSpec.OneRowWindowRed | filter.c:14-24 | in an image one row high, the window around pixel x holds that row's pixels x-1, x and x+1 that exist, and the red sum is theirs |
| BlurSpec.BlurredOneRowRed | filter.c:9-39 | in a blurred image one row high, the red channel of pixel x is the truncated mean of the reds of its existing neighbours in the row and itself |
| BlurSpec.BlurredLeftRed | filter.c:9-39 | in a blurred three-wide row, the left pixel's red is the truncated mean of the reds of pixels 0 and 1 |
| BlurSpec.BlurredMiddleRed | filter.c:9-39 | in a blurred three-wide row, the middle pixel's red is the truncated mean of all three reds |
| BlurSpec.BlurTwiceDiffers | filter.c:33-40 | the filter is not idempotent: for a one-row image with reds 0, 0, 255, one blur gives red 0 at the left pixel and a second blur gives 42 there, so blurring twice differs from blurring once |
| BlurSpec.RowPrefixStep | filter.c:36-38 | filtering pixel `x` of a row whose first `x` pixels are filtered extends the filtered prefix by one |
| BlurSpec.RowsStep | filter.c:35-39 | filtering row `y` of an output whose rows `[lo, y)` are filtered extends the filtered block to `[lo, y+1)` |
| BlurSpec.NoRows | filter.c:56 | an empty range of rows leaves the output as it is |
| BlurSpec.Blurred | filter.c:35-39 | the whole output filtered against the input, every row in order; same shape as the input |
| BlurSpec.Partition | filter.c:70-75 | there is one row range per worker: `[i*(H/n), (i+1)*(H/n))`, with the last ending at `H` |
| BlurSpec.PartitionContiguous | filter.c:70-75 | the ranges start at 0 and end at `H`, each starts where the previous one ends, and each lies within `[0, H]` in order |
| BlurSpec.PartitionBounds | filter.c:74-75 | range `i` starts at or after row 0, ends at or before `H`, and does not run backwards |
| BlurSpec.Owner | filter.c:70-75 | the worker that owns a row is a valid worker index |
| BlurSpec.PartitionCovers | filter.c:70-75 | every row of the image lies in range `i` exactly when `i` is its owner, so the ranges are disjoint and cover all rows |
| BlurSpec.PartitionTenByThree | filter.c:70-75 | 10 rows on 3 workers give [0,3), [3,6), [6,10) |
| BlurSpec.PartitionMoreWorkersThanRows | filter.c:70-75 | with more workers than rows, every worker but the last gets an empty range and the last gets all rows |
| BlurSpec.FilterRowIdempotent | filter.c:56-60 | filtering an output row a second time against the same input changes nothing |
| BlurSpec.RunWorkersRow | filter.c:71-84 | whatever the order of the workers, a row ends up filtered exactly when some range holds it, and untouched otherwise |
| BlurSpec.CoveredSnoc | filter.c:71-84 | a row is held by some range of a list exactly when the front of the list or its last range holds it |
| BlurSpec.RunWorkers | filter.c:71-84 | the output after running the workers of a list of ranges one after another, each filtering its own rows; same shape as the input |
| BlurSpec.RunWorkersSnoc | filter.c:81-84 | running workers 0..i is running workers 0..i-1 and then filtering worker i's range |
| BlurSpec.AnyScheduleIsBlurred | filter.c:71-84 | running the partition's workers in any order that runs each at least once gives exactly the output of the sequential filter (filter.c:35-39) |
| BlurSpec.InOrderScheduleIsBlurred | filter.c:71-84 | running workers 0..n-1 in turn gives the output of the sequential filter |
| Filter.WindowSums | filter.c:10-24 | the nested loops yield the number of in-image window cells and, for each colour channel, their sum |
| Filter.ApplyFilter | filter.c:9-30 | output pixel (x, y) becomes the filtered pixel, with alpha kept. Every other output pixel and the whole input stay unchanged. |
| Filter.ApplyRow | filter.c:36-38 | pixels 0 to `width_px - 1` of row `y` are filtered, so row `y` becomes the filtered row. Every other row and the input stay unchanged. |
| Filter.Apply | filter.c:33-40 | the output becomes the blurred input, every pixel filtered, and the input is unchanged |
| Filter.FilterThreadWorker | filter.c:51-63 | the rows in `[startRow, endRow)` of the output are filtered and every other row is unchanged, including when the range is empty |
| Filter.ApplyParallel | filter.c:66-89 | for `numThreads >= 1`, once every worker has run on its partition range, the output equals the blurred input (what `Apply` produces), and the input is unchanged |

## Left out

- Printing (`printError`, `printBMPHeader`, `printBMPImage`, and the messages written to stderr): diagnostics only.
- `main` in `filter.c` and all of `ex5.c`: argument handling and file opening, and they call the library with signatures that do not match its definitions. `filter.h` holds only prototypes, and its three-argument `apply` disagrees with the two-argument definition modelled here.
- File handling is not modelled: `fopen`, `fclose`, `rewind`, and the packed `fread`/`fwrite` of the header, whose layout `bmp.h` defines (`bmp.h` is not part of this model).
  - The header is an already-parsed record. The bytes after it are a sequence.
  - A failed `fwrite` of the header, a row or the padding is not modelled.
  - A file that cannot be opened is not modelled either.
- BmpCodec.ReadImageData: a pixel whose four bytes are only partly present counts as not read. The C standard leaves the value of a partly read `fread` element indeterminate; the model picks "keeps its old value".
- BmpCodec.ReadImageData: the `image->pixels == NULL` branch cannot arise, because a created image always has its row index.
- BmpCodec.CreateBMPImage: the freshly allocated rows hold unspecified pixels, as `malloc` leaves them. The model does not say what they are.
- BmpCodec.CreateBMPImage: an invalid header makes the code call `exit`. Here it is the error result `ValidError`, with no image and no rows.
- BmpCodec.CreateBMPImage and BmpCodec.ReadImage: `width_px > 0` is a precondition, because the code never checks it.
- The header's `offset` field is ignored, as in the code: pixels are read right after the header. The sign of `height_px` (bottom-up or top-down rows) is ignored too: rows are kept in file order.
- `readImage` checks the wrong pointer for NULL (bmp.c:129), so a failed `createBMPImage` would be dereferenced at bmp.c:135. BmpCodec.ReadImage returns the creation error instead.
- The unused `dataSize` product in `createBMPImage` (bmp.c:58), and its possible `int` overflow.
- C `int` widths: header fields and sums are unbounded integers. `abs(INT_MIN)` and a `norm_height * sizeof(Pixel*)` overflow are not modelled. Channel sums provably stay within 0..2295.
- The `boxFilter` kernel argument of `applyParallel` (filter.c:66) is never read by the code. It is left out, and no weighted convolution is modelled.
- Threads: `pthread_create`/`pthread_join` and the `malloc` of the thread handles. In the code each worker starts as soon as its arguments are filled in. The model fills the argument array, then runs the workers one after another.
  - BlurSpec.AnyScheduleIsBlurred shows that any order of whole workers gives the same output.
  - Interleavings finer than a whole worker are not modelled. Workers write disjoint rows and read only the input, which the model requires to share no row with the output.
- Filter.ApplyParallel: `numThreads >= 1` is a precondition. With `numThreads == 0` the code divides by zero at filter.c:70. With `numThreads < 0` it divides without fault, skips both loops (filter.c:71 and 82) and leaves the output untouched; the model does not cover that case.
- Filter.ApplyFilter, Filter.Apply, Filter.FilterThreadWorker and Filter.ApplyParallel require the input and output images to share no pixel row. Filtering in place is not modelled.
- Filter.ApplyFilter, Filter.Apply, Filter.FilterThreadWorker and Filter.ApplyParallel also require the output to have the input's `normHeight` and `width_px`. The code indexes only by the input's bounds (filter.c:17 and 27), so it would also accept a larger output; the model does not cover that case. The calls in ex5.c (ex5.c:47 and 50) create each output from the same source file as the input, so it has the input's header and meets the requirement.
