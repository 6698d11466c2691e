/** The blur filter over images held in memory: one output pixel, the whole image in
    row-major order, one worker's block of rows, and the parallel path that splits the
    rows among workers. The workers run here one after another; each reads only the
    input image and writes only its own rows of the output. */
module Filter {
  import opened BmpImage
  import opened BlurSpec

  /** The input and output images have the same geometry and share no pixel row. */
  ghost predicate Compatible(imageIn: Image, imageOut: Image)
  {
    imageIn.Valid() && imageOut.Valid() &&
    imageOut.normHeight == imageIn.normHeight &&
    imageOut.header.widthPx == imageIn.header.widthPx &&
    imageIn.Rows() !! imageOut.Rows()
  }

  /** Visits the 3x3 window around (x, y) of the input, column by column, and returns
      the sum of each colour channel over the window's in-image cells and their number. */
  method WindowSums(imageIn: Image, x: int, y: int)
    returns (sumRed: int, sumGreen: int, sumBlue: int, count: int)
    requires imageIn.Valid()
    ensures count == Count(imageIn.header.widthPx, imageIn.normHeight, x, y)
    ensures sumRed == WindowSum(imageIn.Contents(), imageIn.header.widthPx, x, y, Red, 9)
    ensures sumGreen == WindowSum(imageIn.Contents(), imageIn.header.widthPx, x, y, Green, 9)
    ensures sumBlue == WindowSum(imageIn.Contents(), imageIn.header.widthPx, x, y, Blue, 9)
  {
    ghost var g := imageIn.Contents();
    var w := imageIn.header.widthPx;
    sumRed, sumGreen, sumBlue := 0, 0, 0;
    count := 0;
    ghost var k := 0;
    for i := -1 to 2
      invariant k == 3 * (i + 1)
      invariant count == WindowCount(w, |g|, x, y, k)
      invariant sumRed == WindowSum(g, w, x, y, Red, k)
      invariant sumGreen == WindowSum(g, w, x, y, Green, k)
      invariant sumBlue == WindowSum(g, w, x, y, Blue, k)
    {
      for j := -1 to 2
        invariant k == 3 * (i + 1) + (j + 1)
        invariant count == WindowCount(w, |g|, x, y, k)
        invariant sumRed == WindowSum(g, w, x, y, Red, k)
        invariant sumGreen == WindowSum(g, w, x, y, Green, k)
        invariant sumBlue == WindowSum(g, w, x, y, Blue, k)
      {
        WindowStep(g, w, x, y, i, j, k);
        var nx, ny := x + i, y + j;
        if nx >= 0 && nx < w && ny >= 0 && ny < imageIn.normHeight {
          var neighbour := imageIn.pixels[ny][nx];
          assert neighbour == g[ny][nx];
          sumRed := sumRed + neighbour.red;
          sumGreen := sumGreen + neighbour.green;
          sumBlue := sumBlue + neighbour.blue;
          count := count + 1;
        }
        k := k + 1;
      }
    }
  }

  /** Computes output pixel (x, y): red, green and blue become the truncated average of
      the input's in-image cells of the 3x3 window around (x, y). Alpha, every other
      output pixel and the whole input stay as they were. */
  method ApplyFilter(imageIn: Image, imageOut: Image, x: int, y: int)
    requires Compatible(imageIn, imageOut)
    requires InImage(imageIn.header.widthPx, imageIn.normHeight, x, y)
    modifies imageOut.pixels[y]
    ensures imageIn.Contents() == old(imageIn.Contents())
    ensures imageOut.Contents() ==
              old(imageOut.Contents())[y := old(imageOut.Contents())[y][x :=
                FilterPixel(imageIn.Contents(), imageIn.header.widthPx, x, y, old(imageOut.Contents())[y][x])]]
  {
    ghost var g := imageIn.Contents();
    ghost var before := imageOut.Contents();
    var w := imageIn.header.widthPx;
    var sumRed, sumGreen, sumBlue, count := WindowSums(imageIn, x, y);
    FilterPixelValue(g, w, x, y, before[y][x]);
    assert imageOut.pixels[y] in imageOut.Rows();
    assert imageOut.pixels[y] !in imageIn.pixels;
    ghost var filtered := FilterPixel(g, w, x, y, before[y][x]);
    imageOut.pixels[y][x] := imageOut.pixels[y][x].(
      red := sumRed / count, green := sumGreen / count, blue := sumBlue / count);
    ghost var after := before[y := before[y][x := filtered]];
    forall r | 0 <= r < |after| ensures imageOut.Contents()[r] == after[r] {
      if r != y {
        assert imageOut.pixels[r] != imageOut.pixels[y];
        assert imageOut.pixels[r][..] == before[r];
      } else {
        assert imageOut.pixels[y][..] == before[y][x := filtered];
      }
    }
  }

  /** Filters the pixels of row `y` from left to right; the other rows stay as they were. */
  method ApplyRow(imageIn: Image, imageOut: Image, y: int)
    requires Compatible(imageIn, imageOut) && 0 <= y < imageIn.normHeight
    modifies imageOut.pixels[y]
    ensures imageIn.Contents() == old(imageIn.Contents())
    ensures imageOut.Contents() ==
              old(imageOut.Contents())[y := FilterRow(imageIn.Contents(), imageIn.header.widthPx,
                                                      y, old(imageOut.Contents())[y])]
  {
    ghost var g := imageIn.Contents();
    ghost var cur := imageOut.Contents();
    var w := imageIn.header.widthPx;
    var x := 0;
    RowPrefixNone(g, w, y, cur[y]);
    while x < w
      invariant 0 <= x <= w
      invariant imageIn.Contents() == g
      invariant imageOut.Contents() == cur[y := FilterRowPrefix(g, w, y, cur[y], x)]
    {
      ApplyFilter(imageIn, imageOut, x, y);
      GridPrefixStep(g, w, cur, cur[y], y, x);
      x := x + 1;
    }
    assert FilterRowPrefix(g, w, y, cur[y], w) == FilterRow(g, w, y, cur[y]);
  }

  /** Filters every pixel, row by row: the output becomes the blurred input. */
  method Apply(imageIn: Image, imageOut: Image)
    requires Compatible(imageIn, imageOut)
    modifies imageOut.Rows()
    ensures imageIn.Contents() == old(imageIn.Contents())
    ensures imageOut.Contents() ==
              Blurred(imageIn.Contents(), imageIn.header.widthPx, old(imageOut.Contents()))
  {
    ghost var g := imageIn.Contents();
    ghost var g0 := imageOut.Contents();
    var w := imageIn.header.widthPx;
    var y := 0;
    while y < imageIn.normHeight
      invariant 0 <= y <= imageIn.normHeight
      invariant imageIn.Contents() == g
      invariant imageOut.Contents() == FilterRows(g, w, g0, 0, y)
    {
      RowsStep(g, w, g0, 0, y);
      ApplyRow(imageIn, imageOut, y);
      y := y + 1;
    }
  }

  /** What one worker is given: both images and its half-open range of rows. */
  datatype ThreadArgs = ThreadArgs(imageIn: Image, imageOut: Image, startRow: int, endRow: int)

  /** Filters the rows [startRow, endRow) of the output and no others. */
  method FilterThreadWorker(args: ThreadArgs)
    requires Compatible(args.imageIn, args.imageOut)
    requires 0 <= args.startRow && args.endRow <= args.imageIn.normHeight
    modifies args.imageOut.Rows()
    ensures args.imageIn.Contents() == old(args.imageIn.Contents())
    ensures args.imageOut.Contents() ==
              FilterRows(args.imageIn.Contents(), args.imageIn.header.widthPx,
                         old(args.imageOut.Contents()), args.startRow, args.endRow)
  {
    var imageIn, imageOut := args.imageIn, args.imageOut;
    ghost var g := imageIn.Contents();
    ghost var g0 := imageOut.Contents();
    var w := imageIn.header.widthPx;
    var y := args.startRow;
    while y < args.endRow
      invariant args.startRow <= y <= Max(args.startRow, args.endRow)
      invariant imageIn.Contents() == g
      invariant imageOut.Contents() == FilterRows(g, w, g0, args.startRow, y)
    {
      RowsStep(g, w, g0, args.startRow, y);
      ApplyRow(imageIn, imageOut, y);
      y := y + 1;
    }
    RangeDone(g, w, g0, args.startRow, args.endRow, y);
  }

  /** Splits the rows among `numThreads` workers as `Partition` does and runs every
      worker to completion. The output is the one `Apply` produces. */
  method ApplyParallel(imageIn: Image, imageOut: Image, numThreads: int)
    requires Compatible(imageIn, imageOut) && numThreads >= 1
    modifies imageOut.Rows()
    ensures imageIn.Contents() == old(imageIn.Contents())
    ensures imageOut.Contents() ==
              Blurred(imageIn.Contents(), imageIn.header.widthPx, old(imageOut.Contents()))
  {
    ghost var g := imageIn.Contents();
    ghost var g0 := imageOut.Contents();
    ghost var ranges := Partition(imageIn.normHeight, numThreads);
    var w := imageIn.header.widthPx;
    var threadArgs := new ThreadArgs[numThreads](_ => ThreadArgs(imageIn, imageOut, 0, 0));
    var rowsPerThread := imageIn.normHeight / numThreads;
    for i := 0 to numThreads
      modifies threadArgs
      invariant forall k :: 0 <= k < i ==>
                  threadArgs[k] == ThreadArgs(imageIn, imageOut, ranges[k].startRow, ranges[k].endRow)
    {
      PartitionAt(imageIn.normHeight, numThreads, i);
      threadArgs[i] := ThreadArgs(imageIn, imageOut, i * rowsPerThread,
        if i == numThreads - 1 then imageIn.normHeight else (i + 1) * rowsPerThread);
    }
    // Each worker runs to completion before the next starts.
    assert ranges[..0] == [];
    for i := 0 to numThreads
      modifies imageOut.Rows()
      invariant imageIn.Contents() == g
      invariant imageOut.Contents() == RunWorkers(g, w, g0, ranges[..i])
    {
      PartitionBounds(imageIn.normHeight, numThreads, i);
      RunWorkersSnoc(g, w, g0, ranges, i);
      FilterThreadWorker(threadArgs[i]);
    }
    assert ranges[..numThreads] == ranges;
    InOrderScheduleIsBlurred(g, w, g0, numThreads);
  }
}
