/** The part of the PNG format that the indexed image buffer relies on: the header parameters
    and palette handed to the encoder, the image-data length the encoder expects for them,
    and how a reader finds a pixel's palette index in 1-bit scanlines.

    Sections cited are those of the PNG specification (W3C PNG, Second Edition /
    ISO/IEC 15948). */
module Png {
  import opened Layout

  /** Colour types of the IHDR chunk (section 11.2.2). */
  datatype ColorType = Grayscale | Rgb | Indexed | GrayscaleAlpha | Rgba

  /** Bit depths of the IHDR chunk (section 11.2.2). */
  datatype BitDepth = One | Two | Four | Eight | Sixteen

  function BitsPerSample(d: BitDepth): nat {
    match d
    case One => 1
    case Two => 2
    case Four => 4
    case Eight => 8
    case Sixteen => 16
  }

  function SamplesPerPixel(c: ColorType): nat {
    match c
    case Grayscale => 1
    case Rgb => 3
    case Indexed => 1
    case GrayscaleAlpha => 2
    case Rgba => 4
  }

  function Pow2(n: nat): nat {
    if n == 0 then 1 else 2 * Pow2(n - 1)
  }

  /** The colour-type / bit-depth combinations section 11.2.2 allows. */
  predicate DepthAllowed(c: ColorType, d: BitDepth) {
    match c
    case Grayscale => true
    case Indexed => d != Sixteen
    case _ => d == Eight || d == Sixteen
  }

  /** Bytes in one scanline of image data, not counting the filter-type byte (section 7.2):
      pixels are packed tightly and each scanline begins on a byte boundary. */
  function ScanlineBytes(width: nat, c: ColorType, d: BitDepth): nat {
    (width * SamplesPerPixel(c) * BitsPerSample(d) + 7) / 8
  }

  /** What the encoder is configured with and given: `Encoder::new(_, width, height)`,
      `set_color`, `set_palette`, `set_depth`, then the slice passed to `write_image_data`. */
  datatype EncodeInput = EncodeInput(
    width: u32, height: u32, color: ColorType, depth: BitDepth, palette: seq<bv8>, data: seq<bv8>)

  /** A PLTE chunk (section 11.2.3): RGB triples, 1 to 256 of them, and no more than the
      bit depth can index. */
  predicate PaletteValid(e: EncodeInput) {
    |e.palette| % 3 == 0 && 3 <= |e.palette| <= 3 * 256 &&
    |e.palette| / 3 <= Pow2(BitsPerSample(e.depth))
  }

  /** The image data is exactly `height` scanlines of the length the declared width,
      colour type and bit depth call for: the condition under which the encoder accepts
      the slice given to `write_image_data`. */
  predicate DataLengthMatches(e: EncodeInput) {
    |e.data| == e.height as nat * ScanlineBytes(e.width as nat, e.color, e.depth)
  }

  /** The IHDR width and height (section 11.2.2): zero is an invalid value for either. */
  predicate DimensionsValid(e: EncodeInput) {
    e.width > 0 && e.height > 0
  }

  /** The encoder writes the header and takes the image data: the dimensions are nonzero, the
      colour type and bit depth combine, an indexed image has a valid palette, and the data
      has the declared length. */
  predicate Acceptable(e: EncodeInput) {
    DimensionsValid(e) && DepthAllowed(e.color, e.depth) &&
    (e.color == Indexed ==> PaletteValid(e)) && DataLengthMatches(e)
  }

  /** The palette index a reader finds for pixel (x, y) of a 1-bit indexed image: scanline
      `y` starts at byte `y * ScanlineBytes`, and within it pixel `x` is in byte `x / 8`,
      the leftmost pixel of a byte in its high-order bit (section 7.2). */
  function SampleIndex(e: EncodeInput, x: nat, y: nat): (i: bv8)
    requires e.color == Indexed && e.depth == One && DataLengthMatches(e)
    requires x < e.width as nat && y < e.height as nat
    ensures i == 0 || i == 1
  {
    var row := ScanlineBytes(e.width as nat, Indexed, One);
    assert row == (e.width as nat + 7) / 8;
    CellInBuffer(row, e.height as nat, x / 8, y);
    var b := e.data[PixelIndex(row, x / 8, y)];
    (b >> (7 - x % 8)) & 1
  }

  /** The RGB triple a reader shows for palette index `i`. */
  function Colour(e: EncodeInput, i: bv8): (rgb: seq<bv8>)
    requires PaletteValid(e) && 3 * (i as nat) + 3 <= |e.palette|
    ensures |rgb| == 3
  {
    e.palette[3 * (i as nat)..3 * (i as nat) + 3]
  }
}
