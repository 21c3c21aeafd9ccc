# png-indexed in Dafny

A model of `PngIndexed`, the image buffer of the `png-indexed` Rust crate. The buffer stores one
bit per pixel: palette index 0 (white) or 1 (black). It hands its bytes to a PNG encoder as an
indexed-colour image of bit depth 1.

- **Layout** (`Layout.dfy`): the row stride in bits. It is the width rounded up to a multiple of 8.
  Pixel (x, y) sits at flat bit index `y * stride + x`. The model represents Rust's `u32` as a
  newtype (line 9 of `Layout.dfy`) and states the conditions under which `new` does not overflow.
- **Packing** (`Packing.dfy`): the raw byte view of a bit vector stored most-significant-bit first
  (bitvec's `Msb0` order over `u8`). Bit `i` is bit `7 - i % 8` of byte `i / 8`. Packing and
  unpacking are proved to be inverses.
- **Bitmap** (`Bitmap.dfy`): the bit sequence as a value. It covers what `new` allocates, what one
  `put_pixel` does, and what any sequence of in-range `put_pixel` calls does (last write wins,
  padding stays 0).
- **Png** (`Png.dfy`): the part of the PNG format the buffer relies on. It covers the colour types
  and bit depths, and the scanline length of section 7.2 of the PNG specification (W3C PNG, Second
  Edition / ISO/IEC 15948). It also has the nonzero-dimension rule of section 11.2.2, the palette rule of section 11.2.3, and a reader's view of
  a 1-bit indexed pixel: leftmost pixel in the high-order bit, each scanline starting on a byte
  boundary.
- **Indexed** (`Indexed.dfy`): the class `PngIndexed` itself. It has fields `width`, `height`,
  `stride` and a fixed-size `array<bool>` of bits. Its members are `new`, `width()`, `height()`,
  `put_pixel`, the raw byte view and the input `to_png` gives the encoder. Lemmas link the bytes
  to the pixels and show that a PNG reader decodes every pixel to the index stored for it.
- **Scenarios** (`Scenarios.dfy`): the crate's `it_works` test (2 x 2 image, diagonal set, bytes
  `[0x80, 0x40]`). It also covers a 9-pixel-wide row whose ninth pixel lands in the second byte.

The code does no bounds check in `put_pixel` and never reports an error. The model follows the code
here: coordinates outside the image are excluded by preconditions, and the model has no
out-of-bounds or construction error.

## Model

| member | source | states |
|---|---|---|
| Layout.Stride | src/lib.rs:30 | the stride is a multiple of 8 with `width <= stride < width + 8` |
| Layout.RowBytes | src/lib.rs:30 | bytes per row are `ceil(width / 8)`: enough for `width` bits, and one fewer would not be |
| Layout.StrideUnique | src/lib.rs:20 | the stride is the only multiple of 8 in `[width, width + 8)`, i.e. the width rounded up to the next multiple of 8 |
| Layout.CellIndexInjective | src/lib.rs:58 | two stored cells, padding included, share a flat index only if they are the same cell, so rows never overlap |
| Layout.PixelIndexInRow | src/lib.rs:58 | for `x < width`, `y < height` the index lies in `[y * stride, y * stride + width)`: inside row y, before its padding, inside the buffer |
| Layout.BufferBytes | src/lib.rs:31-34 | the `stride * height` bits are a whole number of bytes, `RowBytes(width)` per row |
| Layout.RowSpan | src/lib.rs:30-31 | row y's bits and bytes both lie inside the buffer, and its first bit is bit 0 of byte `y * RowBytes` |
| Layout.CellByte | src/lib.rs:23 | with MSB-first storage, cell (c, y) is bit `c % 8` of byte `y * RowBytes(width) + c / 8`, a byte of the buffer |
| Packing.PackByte | src/lib.rs:23 | the packed byte's bit k, counted from the most significant, is the k-th bit |
| Packing.UnpackByte | src/lib.rs:23 | unpacking a byte into 8 bits and packing them gives the byte back |
| Packing.PackBytesAt | src/lib.rs:80 | bit `i` of the vector is bit `i % 8`, MSB first, of raw byte `i / 8` |
| Packing.UnpackPack | src/lib.rs:80 | unpacking the raw bytes gives back the bit vector |
| Packing.PackUnpack | src/lib.rs:80 | packing the bits of any byte sequence gives it back |
| Packing.PackBytesSlice | src/lib.rs:80 | a byte-aligned run of bits is packed into exactly the matching run of bytes |
| Bitmap.Blank | src/lib.rs:31-34 | `new` allocates `stride * height` bits; every pixel and every padding bit is background 0 |
| Bitmap.WritePixel | src/lib.rs:57-61 | one `put_pixel` keeps the buffer's length (never resized) |
| Bitmap.WritePixelEffect | src/lib.rs:57-61 | after `put_pixel(x, y, p)`, pixel (x, y) holds `p != 0` and every other cell of every row, padding included, is unchanged |
| Bitmap.WritePixelKeepsPadding | src/lib.rs:58 | an in-range write leaves every padding bit 0 |
| Bitmap.WritePixelIdempotent | src/lib.rs:59-60 | the result depends on `p` only through `p != 0`, and repeating a write changes nothing |
| Bitmap.WritesKeepPadding | src/lib.rs:57-61 | padding bits stay 0 after any sequence of in-range writes |
| Bitmap.PixelAfterWrites | src/lib.rs:57-61 | after any sequence of writes, a pixel holds the value of the last write to it, or its old value if none |
| Png.SampleIndex | src/lib.rs:75 | a 1-bit reader's palette index for a pixel is 0 or 1 |
| Indexed.RawSlice | src/lib.rs:80 | the raw byte view has `height * ceil(width / 8)` bytes |
| Indexed.RawSliceCell | src/lib.rs:80 | every stored cell, padding included, is bit `c % 8`, MSB first, of raw byte `y * RowBytes + c / 8` |
| Indexed.RawSlicePixels | src/lib.rs:80 | pixel (x, y) is bit `x % 8`, MSB first, of raw byte `y * RowBytes + x / 8` |
| Indexed.RawSliceRow | src/lib.rs:80 | row y takes exactly `RowBytes` consecutive raw bytes, the packed stride bits of that row |
| Indexed.RowBytesIsScanline | src/lib.rs:75 | the row byte length equals the PNG scanline length for 1-bit indexed pixels |
| Indexed.SampleBit | src/lib.rs:23 | a reader's shift-and-mask of a byte gives the MSB-first bit the buffer stored |
| Indexed.EncoderInput | src/lib.rs:64-84 | `to_png` passes the logical width and height, Indexed, depth One and the white/black palette. The encoder's depth, palette and length rules always hold, so the encoder accepts the input exactly when width and height are both nonzero. Every pixel decodes to its stored index: white for 0, black for 1 |
| Indexed.DecodePixel | src/lib.rs:80-82 | the data length matches the declared image, and a reader finds each pixel's stored bit |
| Indexed.BlankEncodesWhite | src/lib.rs:33-34 | a freshly constructed buffer decodes to index 0 (background) everywhere |
| Indexed.DecodeAfterWrites | src/lib.rs:57-82 | after writes to a fresh buffer, a reader sees index 1 where the last write was nonzero and 0 everywhere else |
| Indexed.PngIndexed.constructor | src/lib.rs:29-42 | `new` stores width and height unchanged, sets stride = `Stride(width)`, and allocates a fresh all-background buffer of `stride * height` bits |
| Indexed.PngIndexed.Width | src/lib.rs:45-47 | `width()` returns the logical width, which the stride covers with fewer than 8 bits to spare |
| Indexed.PngIndexed.Height | src/lib.rs:50-52 | `height()` returns the number of stride-bit rows the buffer holds |
| Indexed.PngIndexed.PutPixel | src/lib.rs:57-61 | sets bit `y * stride + x` to `pixel != 0`. Every other pixel is unchanged, padding stays 0, and width, height, stride and the buffer's length are unchanged |
| Indexed.PngIndexed.RawBytes | src/lib.rs:80 | `as_raw_slice` has `height * RowBytes` bytes, and pixel (x, y) is bit `x % 8`, MSB first, of byte `y * RowBytes + x / 8` |
| Indexed.PngIndexed.ToPng | src/lib.rs:64-84 | the encoder input carries the object's width and height, Indexed, depth One, the palette and the raw bytes. The palette and data length always satisfy the encoder, which accepts the input exactly when width and height are nonzero (otherwise `to_png` panics at `write_header`). Each pixel decodes to its stored index |
| Scenarios.StrideExamples | src/lib.rs:30 | widths 1, 8, 9, 16 give strides 8, 8, 16, 16; width 9 has 2 bytes per row |
| Scenarios.TwoByTwoDiagonal | src/lib.rs:95-101 | the `it_works` image packs to `[0x80, 0x40]`, and the encoder accepts it. It is encoded with palette `[255,255,255,0,0,0]` at depth one, and (0,0), (1,1) decode to 1 and (1,0), (0,1) to 0 |
| Scenarios.DiagonalBytes | src/lib.rs:98-100 | the bits of the `it_works` image pack to `[0x80, 0x40]` |
| Scenarios.ZeroDimensionRejected | src/lib.rs:64-79 | `new` builds 0 x 3 and 5 x 0 images, whose encoder input is refused (so `to_png` panics), while a 1 x 1 image is accepted |
| Scenarios.NineWideSecondByte | src/lib.rs:57-61 | in a 9 x 1 image, setting pixel (8, 0) gives bytes `[0x00, 0x80]` |

## Left out

- The PNG output stream (src/lib.rs:68-84) is not modelled. `png::Encoder`, `write_header`, chunking, CRC, zlib compression and `finish()` belong to a foreign library. The model stops at what is handed to it: the parameters and the byte slice.
- The `unwrap()` panics on encoder errors are not modelled. These are failure paths inside that library.
- Zero width or height is accepted by `new`, as in the code. The encoder's refusal of such a header is modelled as `Acceptable` being false, not as a panic: `ToPng` states that it holds exactly for nonzero dimensions.
- Out-of-range coordinates are excluded by a precondition. `put_pixel` does not check them, and what bitvec does with an index past the end is not visible here. So the model has no out-of-bounds error.
- Overflow in `u32` arithmetic is excluded by preconditions: `width + 7` and `stride * height` must fit in `u32`. Wrap-around and overflow panics are not modelled.
- Indexed.PngIndexed.PutPixel: computes `y * stride + x` as an unbounded integer and converts it to `u32`, rather than doing `u32` arithmetic step by step. The value is proved to fit, so the result is the same.
- The bit vector is an `array<bool>`, the logical view of bitvec's `BitVec<u8, Msb0>`. The raw bytes are computed from it rather than stored. That the bytes and the bits are the same memory is not modelled.
- Allocation failure is not modelled.
- The tests' file output and the `load_image` test are not modelled. They use file I/O and the `image` crate's decoder.
- The Criterion benchmark (benches/benchmark.rs) is not modelled. It only calls `put_pixel`/`to_png` and the `image` crate.
