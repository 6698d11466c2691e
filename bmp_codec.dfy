/** The 32-bpp BMP codec: header validation, image allocation with rollback, reading
    the pixel rows from the byte stream that follows the header, and writing an image
    back out with per-row padding. */
module BmpCodec {
  import opened BmpImage

  /** The error kinds the codec reports. */
  datatype Error = MemoryError | ValidError

  datatype Result<T> = Ok(value: T) | Err(error: Error)

  /** The outcome of each allocation the codec asks for: the image record, the row
      index, and row `i` of the pixel buffer. */
  datatype Allocator = Allocator(imageOk: bool, indexOk: bool, rowOk: nat -> bool)

  /** A BMP file: the header record and the bytes that follow it. */
  datatype BmpFile = BmpFile(header: Header, data: seq<Byte>)

  /** The magic number "BM" read as a little-endian 16-bit value. */
  const Magic := 0x4D42

  /** The size of one stored pixel in bytes (sizeof(Pixel)). */
  const PixelSize := 4

  /** The header is one this codec supports: a BMP file with one plane of
      uncompressed 32-bpp pixels. */
  function CheckBMPValid(header: Header): (valid: bool)
    ensures valid <==> header.fileType == Magic && header.bitsPerPixel == 32 &&
                       header.planes == 1 && header.compression == 0
  {
    if header.fileType != Magic then false
    else if header.bitsPerPixel != 32 then false
    else if header.planes != 1 then false
    else if header.compression != 0 then false
    else true
  }

  function Abs(n: int): nat
  {
    if n < 0 then -n else n
  }

  /** Every row allocation below `n` succeeds. */
  ghost predicate RowsAllocate(alloc: Allocator, n: int)
  {
    forall i: nat :: i < n ==> alloc.rowOk(i)
  }

  /** Allocates an image for `header`: validates the header, derives the geometry and
      allocates `|heightPx|` rows of `widthPx` pixels each. A failed allocation of the
      row index or of any row releases every row allocated so far. The new rows hold
      unspecified pixels. `live` is the set of objects this call leaves allocated: the
      image and its rows on success, nothing on failure. */
  method CreateBMPImage(header: Header, alloc: Allocator)
    returns (r: Result<Image>, ghost live: set<object>)
    requires header.widthPx > 0
    ensures !alloc.imageOk ==> r == Err(MemoryError)
    ensures alloc.imageOk && !CheckBMPValid(header) ==> r == Err(ValidError)
    ensures alloc.imageOk && CheckBMPValid(header) ==>
              (r.Ok? <==> alloc.indexOk && RowsAllocate(alloc, Abs(header.heightPx)))
    ensures r.Err? ==> live == {}
    ensures r.Ok? ==>
              && fresh(r.value)
              && r.value.Valid()
              && r.value.header == header
              && r.value.normHeight == Abs(header.heightPx)
              && r.value.bytesPerPixel == header.bitsPerPixel / 8 == 4
              && (forall i :: 0 <= i < |r.value.pixels| ==> fresh(r.value.pixels[i]))
              && live == r.value.Rows() + {r.value}
  {
    live := {};
    if !alloc.imageOk {
      return Err(MemoryError), live;
    }
    if !CheckBMPValid(header) {
      return Err(ValidError), live;
    }
    var width := header.widthPx;
    var normHeight := Abs(header.heightPx);
    var bytesPerPixel := header.bitsPerPixel / 8;
    if !alloc.indexOk {
      return Err(MemoryError), live;
    }
    var rows: seq<array<Pixel>> := [];
    var i := 0;
    while i < normHeight
      invariant 0 <= i <= normHeight && |rows| == i
      invariant RowsAllocate(alloc, i)
      invariant forall k :: 0 <= k < i ==> fresh(rows[k]) && rows[k].Length == width
      invariant forall k, l :: 0 <= k < l < i ==> rows[k] != rows[l]
      invariant live == set a | a in rows
    {
      if !alloc.rowOk(i) {
        // release rows 0 .. i-1
        var j := 0;
        while j < i
          invariant 0 <= j <= i
          invariant live == set a | a in rows[j..]
        {
          assert rows[j..] == [rows[j]] + rows[j + 1..];
          live := live - {rows[j]};
          j := j + 1;
        }
        return Err(MemoryError), live;
      }
      var row := new Pixel[width];
      rows := rows + [row];
      live := live + {row};
      i := i + 1;
    }
    var image := new Image(header, normHeight, bytesPerPixel, rows);
    live := live + {image};
    return Ok(image), live;
  }

  /** The stream holds all four bytes of pixel `k`. */
  predicate Available(src: seq<Byte>, k: int)
  {
    0 <= k && 4 * k + 4 <= |src|
  }

  /** Pixel `k` of the stream, stored as blue, green, red, alpha. */
  function PixelAt(src: seq<Byte>, k: int): Pixel
    requires Available(src, k)
  {
    Pixel(src[4 * k], src[4 * k + 1], src[4 * k + 2], src[4 * k + 3])
  }

  /** A row after reading it from the stream, its first pixel being stream pixel
      `start`: pixel `c` is stream pixel start + c when the stream holds it and keeps its
      previous value otherwise. */
  ghost function ReadRowPixels(old_: seq<Pixel>, src: seq<Byte>, start: int): (r: seq<Pixel>)
    ensures |r| == |old_|
  {
    seq(|old_|, c requires 0 <= c < |old_| =>
      if Available(src, start + c) then PixelAt(src, start + c) else old_[c])
  }

  /** The pixels of `g` after reading the stream row-major into a `w`-wide buffer: row
      `r` is read from stream pixel r*w on, so pixel (r, c) is stream pixel r*w + c when
      the stream holds it and keeps its previous value otherwise. */
  ghost function ReadPixels(g: Grid, src: seq<Byte>, w: nat): (g': Grid)
    requires IsRect(g, w)
    ensures |g'| == |g| && IsRect(g', w)
  {
    seq(|g|, r requires 0 <= r < |g| => ReadRowPixels(g[r], src, r * w))
  }

  /** Reads pixels from `src` into `image` row by row, stopping at the first pixel the
      stream does not hold. Nothing changes when there is no image or `dataSize` is not
      positive. */
  method ReadImageData(src: seq<Byte>, image: Image?, dataSize: int)
    requires image != null ==> image.Valid()
    modifies if image == null then {} else image.Rows()
    ensures image != null ==>
              image.Contents() ==
                if dataSize <= 0 then old(image.Contents())
                else ReadPixels(old(image.Contents()), src, image.header.widthPx)
  {
    if image == null || dataSize <= 0 {
      return;
    }
    ghost var g0 := image.Contents();
    ghost var read := ReadPixels(g0, src, image.header.widthPx);
    var w := image.header.widthPx;
    for row := 0 to image.normHeight
      invariant forall r :: 0 <= r < image.normHeight ==>
                  image.pixels[r][..] == if r < row then read[r] else g0[r]
    {
      var complete := ReadRow(src, image, row);
      assert forall r :: 0 <= r < image.normHeight && r != row ==> image.pixels[r] != image.pixels[row];
      if !complete {
        ShortReadLeavesRest(g0, src, w, row, w - 1);
        assert forall r :: 0 <= r < image.normHeight ==> image.pixels[r][..] == read[r];
        assert image.Contents() == read;
        return;
      }
    }
    assert image.Contents() == read;
  }

  /** Reads row `row` of `image` pixel by pixel and reports whether the stream held the
      whole row; at the first missing pixel it stops and leaves the rest of the row as it
      was. */
  method ReadRow(src: seq<Byte>, image: Image, row: int) returns (complete: bool)
    requires image.Valid() && 0 <= row < image.normHeight
    modifies image.pixels[row]
    ensures complete == Available(src, row * image.header.widthPx + image.header.widthPx - 1)
    ensures image.pixels[row][..] ==
              ReadRowPixels(old(image.pixels[row][..]), src, row * image.header.widthPx)
  {
    var w := image.header.widthPx;
    var start := row * w;
    assert 0 <= start;
    ghost var before := image.pixels[row][..];
    ghost var read := ReadRowPixels(before, src, start);
    for col := 0 to w
      invariant forall c :: 0 <= c < w ==>
                  image.pixels[row][c] == if c < col then read[c] else before[c]
      invariant col == 0 || Available(src, start + col - 1)
    {
      if |src| < 4 * (start + col) + 4 {
        MissingPixelsFrom(before, src, start, col);
        assert image.pixels[row][..] == read;
        return false;
      }
      image.pixels[row][col] := PixelAt(src, start + col);
    }
    assert image.pixels[row][..] == read;
    return true;
  }

  /** Once pixel `col` of a row is missing from the stream, so is every later pixel of the
      row, which therefore keeps its old value; the row is incomplete. */
  lemma MissingPixelsFrom(old_: seq<Pixel>, src: seq<Byte>, start: int, col: int)
    requires 0 <= start && 0 <= col < |old_|
    requires !Available(src, start + col)
    ensures forall c :: col <= c < |old_| ==> ReadRowPixels(old_, src, start)[c] == old_[c]
    ensures !Available(src, start + |old_| - 1)
  {
    forall c | col <= c < |old_| ensures ReadRowPixels(old_, src, start)[c] == old_[c] {
      assert !Available(src, start + c);
    }
  }

  /** Once the last pixel of row `row` is missing from the stream, every row below it
      keeps its old value. */
  lemma ShortReadLeavesRest(g: Grid, src: seq<Byte>, w: nat, row: int, col: int)
    requires IsRect(g, w) && 0 <= row < |g| && 0 <= col < w
    requires !Available(src, row * w + col)
    ensures forall r :: row < r < |g| ==> ReadPixels(g, src, w)[r] == g[r]
  {
    var read := ReadPixels(g, src, w);
    forall r | row < r < |g| ensures read[r] == g[r] {
      forall c | 0 <= c < w ensures read[r][c] == g[r][c] {
        FlatIndexAtLeast(r, c, row, col, w);
        assert !Available(src, r * w + c);
      }
    }
  }

  lemma FlatIndexAtLeast(r: int, c: int, row: int, col: int, w: int)
    requires 0 <= row <= r && 0 <= c < w && 0 <= col < w
    requires r > row || c >= col
    ensures r * w + c >= row * w + col
  {
    if r > row {
      assert r * w >= (row + 1) * w == row * w + w;
    }
  }

  /** The four stored bytes of a pixel. */
  function PixelBytes(p: Pixel): seq<Byte>
  {
    [p.blue, p.green, p.red, p.alpha]
  }

  /** The stored bytes of a row of pixels, in order. */
  function RowBytes(row: seq<Pixel>): (bytes: seq<Byte>)
    ensures |bytes| == PixelSize * |row|
  {
    if row == [] then [] else RowBytes(row[..|row| - 1]) + PixelBytes(row[|row| - 1])
  }

  function Zeros(n: nat): seq<Byte>
  {
    seq(n, _ => 0)
  }

  /** The number of zero bytes that bring a row of `rowBytes` bytes to a multiple of
      four. */
  function RowPadding(rowBytes: int): (pad: int)
    ensures 0 <= pad <= 3
    ensures (rowBytes + pad) % 4 == 0
    ensures rowBytes % 4 == 0 <==> pad == 0
  {
    (4 - rowBytes % 4) % 4
  }

  /** Rows of 4-byte pixels are already a multiple of four bytes long: no padding. */
  lemma NoPaddingFor32Bpp(w: int)
    ensures RowPadding(w * PixelSize) == 0
  {
    assert (w * PixelSize) % 4 == 0;
  }

  /** The pixel bytes of a file holding `g`: every row followed by `pad` zero bytes. */
  function EncodeRows(g: Grid, pad: nat): (bytes: seq<Byte>)
  {
    if g == [] then [] else EncodeRows(g[..|g| - 1], pad) + RowBytes(g[|g| - 1]) + Zeros(pad)
  }

  /** Byte `4c + b` of a row's bytes is byte `b` of its pixel `c`. */
  lemma {:induction false} RowBytesAt(row: seq<Pixel>, c: int, b: int)
    requires 0 <= c < |row| && 0 <= b < PixelSize
    ensures RowBytes(row)[PixelSize * c + b] == PixelBytes(row[c])[b]
  {
    var n := |row| - 1;
    if c < n {
      RowBytesAt(row[..n], c, b);
      assert row[..n][c] == row[c];
    }
  }

  /** Each encoded row takes `stride` bytes. */
  lemma {:induction false} EncodeRowsLength(g: Grid, w: nat, pad: nat, stride: int)
    requires IsRect(g, w) && stride == PixelSize * w + pad
    ensures |EncodeRows(g, pad)| == |g| * stride
  {
    if g != [] {
      var n := |g| - 1;
      assert IsRect(g[..n], w);
      EncodeRowsLength(g[..n], w, pad, stride);
      NextMultiple(n, stride);
    }
  }

  lemma NextMultiple(n: int, stride: int)
    ensures (n + 1) * stride == n * stride + stride
  {
  }

  lemma RowStartsBelow(r: int, n: int, stride: int, i: int)
    requires 0 <= r < n && 0 <= i < stride
    ensures 0 <= r * stride + i < n * stride
  {
    assert r * stride + i < r * stride + stride == (r + 1) * stride <= n * stride;
  }

  /** The layout of the encoded rows: row `r` starts at byte `r * stride`, where the
      stride is `4w + pad`, with its pixel bytes followed by `pad` zero bytes. */
  lemma {:induction false} EncodeRowsLayout(g: Grid, w: nat, pad: nat, stride: int, r: int, i: int)
    requires IsRect(g, w) && stride == PixelSize * w + pad
    requires 0 <= r < |g| && 0 <= i < stride
    ensures r * stride + i < |EncodeRows(g, pad)|
    ensures EncodeRows(g, pad)[r * stride + i] ==
              if i < PixelSize * w then RowBytes(g[r])[i] else 0
  {
    var n := |g| - 1;
    var front := g[..n];
    assert IsRect(front, w);
    var last := RowBytes(g[n]) + Zeros(pad);
    assert EncodeRows(g, pad) == EncodeRows(front, pad) + last;
    EncodeRowsLength(front, w, pad, stride);
    EncodeRowsLength(g, w, pad, stride);
    RowStartsBelow(r, |g|, stride, i);
    if r < n {
      EncodeRowsLayout(front, w, pad, stride, r, i);
      assert front[r] == g[r];
    } else {
      assert EncodeRows(g, pad)[r * stride + i] == last[i];
    }
  }

  lemma PixelOffset(r: int, w: int, c: int)
    ensures PixelSize * (r * w + c) == r * (PixelSize * w) + PixelSize * c
  {
  }

  /** Byte `b` of pixel (r, c), stream pixel `k = r*w + c`, sits at offset `4k + b` of
      the unpadded encoding. */
  lemma EncodedByteAt(g: Grid, w: nat, r: int, c: int, k: int, b: int)
    requires IsRect(g, w) && 0 <= r < |g| && 0 <= c < w && 0 <= b < PixelSize
    requires k == r * w + c
    ensures 0 <= k
    ensures PixelSize * k + b < |EncodeRows(g, 0)|
    ensures EncodeRows(g, 0)[PixelSize * k + b] == PixelBytes(g[r][c])[b]
  {
    PixelOffset(r, w, c);
    EncodeRowsLayout(g, w, 0, PixelSize * w, r, PixelSize * c + b);
    RowBytesAt(g[r], c, b);
  }

  /** With no padding, stream pixel r*w + c of the encoded rows is pixel (r, c). */
  lemma EncodedPixelAt(g: Grid, w: nat, r: int, c: int)
    requires IsRect(g, w) && 0 <= r < |g| && 0 <= c < w
    ensures Available(EncodeRows(g, 0), r * w + c)
    ensures PixelAt(EncodeRows(g, 0), r * w + c) == g[r][c]
  {
    var k := r * w + c;
    var data := EncodeRows(g, 0);
    var p := g[r][c];
    EncodedByteAt(g, w, r, c, k, 0);
    EncodedByteAt(g, w, r, c, k, 1);
    EncodedByteAt(g, w, r, c, k, 2);
    EncodedByteAt(g, w, r, c, k, 3);
    PixelFromBytes(data, k, p);
  }

  /** A stream whose four bytes at pixel `k` are those of `p` holds `p` there. */
  lemma PixelFromBytes(data: seq<Byte>, k: int, p: Pixel)
    requires 0 <= k && PixelSize * k + 3 < |data|
    requires data[PixelSize * k + 0] == PixelBytes(p)[0] && data[PixelSize * k + 1] == PixelBytes(p)[1]
    requires data[PixelSize * k + 2] == PixelBytes(p)[2] && data[PixelSize * k + 3] == PixelBytes(p)[3]
    ensures Available(data, k) && PixelAt(data, k) == p
  {
  }

  /** Round trip: reading back the pixel bytes written for a 32-bpp image of width `w`
      reproduces every pixel, whatever the buffer held before. */
  lemma EncodeThenReadPixels(g: Grid, w: nat, before: Grid)
    requires w > 0 && IsRect(g, w) && IsRect(before, w) && |before| == |g|
    ensures ReadPixels(before, EncodeRows(g, RowPadding(w * PixelSize)), w) == g
  {
    NoPaddingFor32Bpp(w);
    var back := ReadPixels(before, EncodeRows(g, 0), w);
    forall r, c | 0 <= r < |g| && 0 <= c < w ensures back[r][c] == g[r][c] {
      EncodedPixelAt(g, w, r, c);
    }
    GridsEqual(back, g, w);
  }

  /** Writes `image` out: its header, then every row followed by the row padding.
      There is nothing to write without an image. */
  method WriteImage(image: Image?) returns (file: Option<BmpFile>)
    requires image != null ==> image.Valid()
    ensures image == null ==> file == None
    ensures image != null ==>
              file == Some(BmpFile(image.header,
                EncodeRows(image.Contents(), RowPadding(image.header.widthPx * PixelSize))))
  {
    if image == null {
      return None;
    }
    var rowPadding := RowPadding(image.header.widthPx * PixelSize);
    var data: seq<Byte> := [];
    for row := 0 to image.normHeight
      invariant data == EncodeRows(image.Contents()[..row], rowPadding)
    {
      assert image.Contents()[..row + 1][..row] == image.Contents()[..row];
      data := data + RowBytes(image.pixels[row][..]);
      if rowPadding > 0 {
        data := data + Zeros(rowPadding);
      }
    }
    assert image.Contents()[..image.normHeight] == image.Contents();
    return Some(BmpFile(image.header, data));
  }

  datatype Option<T> = None | Some(value: T)

  /** Decodes a file: allocates an image for its header and fills it from the bytes
      after the header, using the header's `size` field as the data size. The header's
      `offset` field and the sign of `heightPx` play no part. `live` is the set of
      objects this call leaves allocated: the image and its rows on success, nothing on
      failure. */
  method ReadImage(file: BmpFile, alloc: Allocator) returns (r: Result<Image>, ghost live: set<object>)
    requires file.header.widthPx > 0
    ensures !alloc.imageOk ==> r == Err(MemoryError)
    ensures alloc.imageOk && !CheckBMPValid(file.header) ==> r == Err(ValidError)
    ensures alloc.imageOk && CheckBMPValid(file.header) ==>
              (r.Ok? <==> alloc.indexOk && RowsAllocate(alloc, Abs(file.header.heightPx)))
    ensures r.Err? ==> live == {}
    ensures r.Ok? ==>
              && fresh(r.value) && r.value.Valid()
              && r.value.header == file.header
              && r.value.normHeight == Abs(file.header.heightPx)
              && r.value.bytesPerPixel == 4
              && (forall i :: 0 <= i < |r.value.pixels| ==> fresh(r.value.pixels[i]))
              && live == r.value.Rows() + {r.value}
              && (file.header.size > 0 ==>
                    forall row, col ::
                      (0 <= row < r.value.normHeight && 0 <= col < file.header.widthPx &&
                       Available(file.data, row * file.header.widthPx + col)) ==>
                      r.value.Contents()[row][col] == PixelAt(file.data, row * file.header.widthPx + col))
  {
    var created;
    created, live := CreateBMPImage(file.header, alloc);
    if created.Err? {
      return created, live;
    }
    var image := created.value;
    ReadImageData(file.data, image, file.header.size);
    return Ok(image), live;
  }

  /** Releases an image: every row and then the image itself. (The row index is a
      sequence in this model, not an object of its own.) `live` is the set of allocated
      objects before the call; the result is the set after it. */
  method FreeImage(image: Image?, ghost live: set<object>) returns (ghost after: set<object>)
    requires image != null ==> image.Valid()
    ensures image == null ==> after == live
    ensures image != null ==> after == live - image.Rows() - {image}
  {
    after := live;
    if image != null {
      for i := 0 to image.normHeight
        invariant after == live - (set k | 0 <= k < i :: image.pixels[k])
      {
        after := after - {image.pixels[i]};
      }
      assert (set k | 0 <= k < image.normHeight :: image.pixels[k]) == image.Rows() by {
        forall a ensures a in image.Rows() ==> exists k :: 0 <= k < image.normHeight && image.pixels[k] == a {
          if a in image.Rows() {
            var k :| 0 <= k < |image.pixels| && image.pixels[k] == a;
          }
        }
      }
      after := after - {image};
    }
  }
}
