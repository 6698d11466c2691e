/** The data of the image library: bytes, 32-bpp pixels, the parsed BMP header and
    the in-memory image whose pixel rows are separately allocated arrays. */
module BmpImage {

  /** An unsigned 8-bit value (uint8_t). */
  type Byte = b: int | 0 <= b < 256

  /** One 32-bpp pixel, in the BGRA order in which BMP stores it. */
  datatype Pixel = Pixel(blue: Byte, green: Byte, red: Byte, alpha: Byte)

  /** The three colour channels the blur filter averages. */
  datatype Channel = Red | Green | Blue

  function Component(p: Pixel, ch: Channel): Byte
  {
    match ch
    case Red => p.red
    case Green => p.green
    case Blue => p.blue
  }

  /** The value of an image's pixels, row by row. */
  type Grid = seq<seq<Pixel>>

  /** Every row of `g` holds exactly `w` pixels. */
  ghost predicate IsRect(g: Grid, w: int)
  {
    forall r :: 0 <= r < |g| ==> |g[r]| == w
  }

  /** Two grids of the same shape that agree on every pixel are equal. */
  lemma GridsEqual(a: Grid, b: Grid, w: int)
    requires |a| == |b| && IsRect(a, w) && IsRect(b, w)
    requires forall r, c :: 0 <= r < |a| && 0 <= c < w ==> a[r][c] == b[r][c]
    ensures a == b
  {
    forall r | 0 <= r < |a| ensures a[r] == b[r] {
      assert forall c :: 0 <= c < w ==> a[r][c] == b[r][c];
    }
  }

  /** The BMP file and info header as already parsed from the file.
      `fileType` is the header's `type` field (the magic number). */
  datatype Header = Header(
    fileType: int,
    size: int,
    offset: int,
    headerSize: int,
    widthPx: int,
    heightPx: int,
    planes: int,
    bitsPerPixel: int,
    compression: int)

  /** A decoded image: the header, the derived geometry and the row index, each row an
      array of `widthPx` pixels. The row index is fixed once the image is created; the
      pixels inside the rows are updated in place. */
  class Image {
    const header: Header
    const normHeight: int
    const bytesPerPixel: int
    const pixels: seq<array<Pixel>>

    ghost predicate Valid()
    {
      |pixels| == normHeight &&
      header.widthPx > 0 &&
      (forall r :: 0 <= r < |pixels| ==> pixels[r].Length == header.widthPx) &&
      (forall r, s :: 0 <= r < s < |pixels| ==> pixels[r] != pixels[s])
    }

    /** The pixel rows, as a set of objects. */
    ghost function Rows(): set<array<Pixel>>
    {
      set r | r in pixels
    }

    /** The pixels of the image as a value. */
    ghost function Contents(): (g: Grid)
      requires Valid()
      reads pixels
      ensures |g| == normHeight && IsRect(g, header.widthPx)
      ensures forall r :: 0 <= r < |g| ==> g[r] == pixels[r][..]
    {
      seq(|pixels|, r requires 0 <= r < |pixels| reads pixels => pixels[r][..])
    }

    constructor (header: Header, normHeight: int, bytesPerPixel: int, pixels: seq<array<Pixel>>)
      ensures this.header == header && this.normHeight == normHeight
      ensures this.bytesPerPixel == bytesPerPixel && this.pixels == pixels
    {
      this.header := header;
      this.normHeight := normHeight;
      this.bytesPerPixel := bytesPerPixel;
      this.pixels := pixels;
    }
  }
}
