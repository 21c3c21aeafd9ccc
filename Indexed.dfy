/** `PngIndexed`: the 1-bit-per-pixel indexed image buffer, its backing bytes and the
    parameters with which it is handed to the PNG encoder (src/lib.rs). */
module Indexed {
  import opened Layout
  import opened Bitmap
  import opened Packing
  import opened Png

  /** The palette `to_png` passes to the encoder: index 0 is white, index 1 is black. */
  const PALETTE: seq<bv8> := [255, 255, 255, 0, 0, 0]
  const WHITE: seq<bv8> := [255, 255, 255]
  const BLACK: seq<bv8> := [0, 0, 0]

  /** The backing bytes of the buffer (`as_raw_slice`). */
  function RawSlice(bits: seq<bool>, width: nat, height: nat): (bytes: seq<bv8>)
    requires Shaped(bits, width, height)
    ensures |bytes| == height * RowBytes(width)
  {
    BufferBytes(width, height);
    PackBytes(bits)
  }

  /** Every stored cell (c, y), padding included, is bit `c % 8`, most significant first,
      of byte `ByteIndex(width, c, y)` of the backing bytes. */
  lemma RawSliceCell(bits: seq<bool>, width: nat, height: nat, c: nat, y: nat)
    requires Shaped(bits, width, height) && c < Stride(width) && y < height
    ensures PixelIndex(Stride(width), c, y) < |bits|
    ensures ByteIndex(width, c, y) < |RawSlice(bits, width, height)|
    ensures BitAt(RawSlice(bits, width, height)[ByteIndex(width, c, y)], c % 8)
      == bits[PixelIndex(Stride(width), c, y)]
  {
    var i := PixelIndex(Stride(width), c, y);
    CellByte(width, height, c, y);
    BufferBytes(width, height);
    PackBytesAt(bits, i);
  }

  /** Pixel (x, y) is bit `x % 8`, most significant first, of byte `ByteIndex(width, x, y)`. */
  lemma RawSlicePixels(bits: seq<bool>, width: nat, height: nat)
    requires Shaped(bits, width, height)
    ensures forall x: nat, y: nat :: x < width && y < height ==>
      ByteIndex(width, x, y) < |RawSlice(bits, width, height)| &&
      BitAt(RawSlice(bits, width, height)[ByteIndex(width, x, y)], x % 8) == PixelAt(bits, width, height, x, y)
  {
    forall x: nat, y: nat | x < width && y < height
      ensures ByteIndex(width, x, y) < |RawSlice(bits, width, height)|
      ensures BitAt(RawSlice(bits, width, height)[ByteIndex(width, x, y)], x % 8) == PixelAt(bits, width, height, x, y)
    {
      RawSliceCell(bits, width, height, x, y);
    }
  }

  /** Row `y` occupies exactly `RowBytes(width)` consecutive bytes, and they are the packed
      `stride` bits of that row. */
  lemma RawSliceRow(bits: seq<bool>, width: nat, height: nat, y: nat)
    requires Shaped(bits, width, height) && y < height
    ensures var n, s := RowBytes(width), Stride(width);
      y * n + n <= |RawSlice(bits, width, height)| && y * s + s <= |bits| &&
      RawSlice(bits, width, height)[y * n..y * n + n] == PackBytes(bits[y * s..y * s + s])
  {
    var n, s := RowBytes(width), Stride(width);
    RowSpan(width, height, y);
    BufferBytes(width, height);
    AlignedRun(bits, y * n, n, y * s, s);
  }

  /** The `n` bytes from byte `l` pack the `s = 8 * n` bits from bit `lo = 8 * l`. */
  lemma AlignedRun(bits: seq<bool>, l: nat, n: nat, lo: nat, s: nat)
    requires |bits| % 8 == 0 && lo == 8 * l && s == 8 * n && lo + s <= |bits|
    ensures l + n <= |PackBytes(bits)|
    ensures PackBytes(bits)[l..l + n] == PackBytes(bits[lo..lo + s])
  {
    PackBytesSlice(bits, l, l + n);
  }

  /** The row length the buffer uses is the PNG scanline length for 1-bit indexed pixels. */
  lemma RowBytesIsScanline(width: nat)
    ensures RowBytes(width) == ScanlineBytes(width, Indexed, One)
  {
  }

  /** Reading a 1-bit sample with a shift and a mask gives the MSB-first bit. */
  lemma SampleBit(b: bv8, k: nat)
    requires k < 8
    ensures (b >> (7 - k)) & 1 == if BitAt(b, k) then 1 else 0
  {
  }

  /** `to_png` on a buffer holding `bits`: what it configures the encoder with and the data
      it writes. The colour type, depth, palette and data length always satisfy the encoder,
      so it accepts the input exactly when neither dimension is zero (otherwise `to_png`
      panics on the header); a reader decodes every pixel to the palette index and colour
      stored for it. */
  function EncoderInput(bits: seq<bool>, width: u32, height: u32): (e: EncodeInput)
    requires Shaped(bits, width as nat, height as nat)
    ensures e.width == width && e.height == height
    ensures e.color == Indexed && e.depth == One && e.palette == PALETTE
    ensures DepthAllowed(e.color, e.depth) && PaletteValid(e) && DataLengthMatches(e)
    ensures Acceptable(e) <==> width > 0 && height > 0
    ensures forall x: nat, y: nat :: x < width as nat && y < height as nat ==>
      SampleIndex(e, x, y) == (if PixelAt(bits, width as nat, height as nat, x, y) then 1 else 0)
    ensures forall x: nat, y: nat :: x < width as nat && y < height as nat ==>
      Colour(e, SampleIndex(e, x, y)) == (if PixelAt(bits, width as nat, height as nat, x, y) then BLACK else WHITE)
  {
    var e := EncodeInput(width, height, Indexed, One, PALETTE, RawSlice(bits, width as nat, height as nat));
    RowBytesIsScanline(width as nat);
    assert Pow2(BitsPerSample(One)) == 2;
    assert PaletteValid(e) && DataLengthMatches(e);
    assert forall x: nat, y: nat :: x < width as nat && y < height as nat ==>
      SampleIndex(e, x, y) == (if PixelAt(bits, width as nat, height as nat, x, y) then 1 else 0) &&
      Colour(e, SampleIndex(e, x, y)) == (if PixelAt(bits, width as nat, height as nat, x, y) then BLACK else WHITE) by {
      forall x: nat, y: nat | x < width as nat && y < height as nat
        ensures SampleIndex(e, x, y) == (if PixelAt(bits, width as nat, height as nat, x, y) then 1 else 0)
        ensures Colour(e, SampleIndex(e, x, y)) == (if PixelAt(bits, width as nat, height as nat, x, y) then BLACK else WHITE)
      {
        DecodePixel(bits, e, x, y);
      }
    }
    e
  }

  /** A reader of the encoder's input finds, for pixel (x, y), the bit stored for it. */
  lemma DecodePixel(bits: seq<bool>, e: EncodeInput, x: nat, y: nat)
    requires Shaped(bits, e.width as nat, e.height as nat)
    requires e == EncodeInput(e.width, e.height, Indexed, One, PALETTE, RawSlice(bits, e.width as nat, e.height as nat))
    requires x < e.width as nat && y < e.height as nat
    ensures DataLengthMatches(e)
    ensures SampleIndex(e, x, y) == (if PixelAt(bits, e.width as nat, e.height as nat, x, y) then 1 else 0)
  {
    var w, h := e.width as nat, e.height as nat;
    RowBytesIsScanline(w);
    RawSliceCell(bits, w, h, x, y);
    SampleBit(e.data[ByteIndex(w, x, y)], x % 8);
  }

  /** A freshly constructed buffer encodes to an image whose every pixel is background white. */
  lemma BlankEncodesWhite(width: u32, height: u32)
    ensures var e := EncoderInput(Blank(width as nat, height as nat), width, height);
      forall x: nat, y: nat :: x < width as nat && y < height as nat ==> SampleIndex(e, x, y) == 0
  {
  }

  /** Round trip through the encoder: after any sequence of in-range `put_pixel` calls on a
      fresh buffer, a reader sees palette index 1 at each pixel whose last write was nonzero
      and index 0 at every other pixel, written or untouched. */
  lemma DecodeAfterWrites(width: u32, height: u32, writes: seq<Write>, x: nat, y: nat)
    requires WritesInRange(writes, width as nat, height as nat)
    requires x < width as nat && y < height as nat
    ensures SampleIndex(EncoderInput(ApplyWrites(Blank(width as nat, height as nat), width as nat, height as nat, writes),
                                     width, height), x, y)
      == match LastWrite(writes, x, y)
         case Some(p) => if p != 0 then 1 else 0
         case None => 0
  {
    PixelAfterWrites(Blank(width as nat, height as nat), width as nat, height as nat, writes, x, y);
  }

  /** The image buffer: logical width and height, the row stride in bits, and the bit vector
      of `stride * height` bits (bitvec's `BitVec<u8, Msb0>`). */
  class PngIndexed {
    var width: u32
    var height: u32
    var stride: u32
    var data: array<bool>

    ghost predicate Valid()
      reads this
    {
      NewFitsU32(width as nat, height as nat) &&
      stride as nat == Stride(width as nat) &&
      data.Length == stride as nat * height as nat
    }

    /** The palette index stored for pixel (x, y). */
    ghost function Pixel(x: nat, y: nat): bool
      reads this, data
      requires Valid() && x < width as nat && y < height as nat
    {
      PixelAt(data[..], width as nat, height as nat, x, y)
    }

    /** `new`: stride is the width rounded up to a multiple of 8, and `stride * height`
        background bits are allocated. */
    constructor (width: u32, height: u32)
      requires NewFitsU32(width as nat, height as nat)
      ensures Valid() && fresh(data)
      ensures this.width == width && this.height == height
      ensures data[..] == Blank(width as nat, height as nat)
    {
      var stride := ((width + 7) / 8) * 8;
      var totalBits := stride * height;
      this.width := width;
      this.height := height;
      this.stride := stride;
      data := new bool[totalBits](_ => false);
      new;
      assert data[..] == Blank(width as nat, height as nat);
    }

    /** `width()`: the logical width, which the padded stride covers with fewer than 8 bits to spare. */
    function Width(): (w: u32)
      reads this
      requires Valid()
      ensures w as nat <= stride as nat < w as nat + 8
    {
      width
    }

    /** `height()`: the number of rows of `stride` bits the buffer holds. */
    function Height(): (h: u32)
      reads this
      requires Valid()
      ensures data.Length == stride as nat * h as nat
    {
      height
    }

    /** `put_pixel(x, y, pixel)`: sets bit `y * stride + x` to `pixel != 0`. Pixel (x, y)
        then holds that value; every other pixel and every padding bit is unchanged. */
    method PutPixel(x: u32, y: u32, pixel: bv8)
      requires Valid() && x < width && y < height
      modifies data
      ensures Valid()
      ensures data[..] == WritePixel(old(data[..]), width as nat, height as nat, x as nat, y as nat, pixel)
      ensures Pixel(x as nat, y as nat) == (pixel != 0)
      ensures forall x': nat, y': nat :: x' < width as nat && y' < height as nat && (x' != x as nat || y' != y as nat) ==>
        Pixel(x', y') == old(Pixel(x', y'))
      ensures old(PaddingZero(data[..], width as nat, height as nat)) ==> PaddingZero(data[..], width as nat, height as nat)
    {
      PixelIndexInRow(width as nat, height as nat, x as nat, y as nat);
      WritePixelEffect(data[..], width as nat, height as nat, x as nat, y as nat, pixel);
      if PaddingZero(data[..], width as nat, height as nat) {
        WritePixelKeepsPadding(data[..], width as nat, height as nat, x as nat, y as nat, pixel);
      }
      var index := (y as int * stride as int + x as int) as u32;
      data[index] := pixel != 0;
    }

    /** `as_raw_slice()`: the backing bytes, one row after another, `RowBytes(width)` bytes
        per row; pixel (x, y) is bit `x % 8`, most significant first, of byte
        `y * RowBytes(width) + x / 8`. */
    function RawBytes(): (bytes: seq<bv8>)
      reads this, data
      requires Valid()
      ensures |bytes| == height as nat * RowBytes(width as nat)
      ensures forall x: nat, y: nat :: x < width as nat && y < height as nat ==>
        ByteIndex(width as nat, x, y) < |bytes| &&
        BitAt(bytes[ByteIndex(width as nat, x, y)], x % 8) == Pixel(x, y)
    {
      RawSlicePixels(data[..], width as nat, height as nat);
      RawSlice(data[..], width as nat, height as nat)
    }

    /** `to_png()`, up to the encoder: it passes the logical width and height, colour type
        Indexed, bit depth One, the white/black palette and the backing bytes. The encoder
        accepts them exactly when the image is at least 1 x 1; otherwise `to_png` panics. */
    function ToPng(): (e: EncodeInput)
      reads this, data
      requires Valid()
      ensures e.width == width && e.height == height
      ensures e.color == Indexed && e.depth == One && e.palette == PALETTE
      ensures e.data == RawBytes()
      ensures PaletteValid(e) && DataLengthMatches(e)
      ensures Acceptable(e) <==> width > 0 && height > 0
      ensures forall x: nat, y: nat :: x < width as nat && y < height as nat ==>
        SampleIndex(e, x, y) == (if Pixel(x, y) then 1 else 0)
    {
      EncoderInput(data[..], width, height)
    }
  }
}
