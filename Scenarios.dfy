/** Concrete runs of the indexed image buffer, proved from the contracts of `PngIndexed`. */
module Scenarios {
  import opened Layout
  import opened Bitmap
  import opened Packing
  import opened Png
  import opened Indexed

  /** Strides of the boundary widths: 8 needs no padding, 9 spills into a second byte. */
  lemma StrideExamples()
    ensures Stride(1) == 8 && Stride(8) == 8 && Stride(9) == 16 && Stride(16) == 16
    ensures RowBytes(9) == 2 == ScanlineBytes(9, Indexed, One)
  {
  }

  /** The `it_works` test: a 2 x 2 image with (0, 0) and (1, 1) set. Each row is one byte,
      the set pixel in its high-order bit for row 0 and in the next bit for row 1; the
      encoder gets the white/black palette at bit depth one and a reader sees the diagonal. */
  method TwoByTwoDiagonal() returns (raw: seq<bv8>, e: EncodeInput)
    ensures raw == [0x80, 0x40]
    ensures e.width == 2 && e.height == 2 && e.color == Indexed && e.depth == One
    ensures e.palette == [255, 255, 255, 0, 0, 0] && e.data == raw
    ensures Acceptable(e)
    ensures SampleIndex(e, 0, 0) == 1 && SampleIndex(e, 1, 1) == 1
    ensures SampleIndex(e, 1, 0) == 0 && SampleIndex(e, 0, 1) == 0
  {
    var png := new PngIndexed(2, 2);
    assert !png.Pixel(1, 0) && !png.Pixel(0, 1);
    png.PutPixel(0, 0, 1);
    assert png.Pixel(0, 0) && !png.Pixel(1, 0) && !png.Pixel(0, 1);
    png.PutPixel(1, 1, 1);
    assert png.Pixel(0, 0) && png.Pixel(1, 1) && !png.Pixel(1, 0) && !png.Pixel(0, 1);
    raw := png.RawBytes();
    DiagonalBytes();
    assert raw == [0x80, 0x40];
    e := png.ToPng();
  }

  /** The bits and bytes of the `it_works` image after its two writes. */
  lemma DiagonalBytes()
    ensures PackBytes(WritePixel(WritePixel(Blank(2, 2), 2, 2, 0, 0, 1), 2, 2, 1, 1, 1)) == [0x80, 0x40]
  {
    var bits := WritePixel(WritePixel(Blank(2, 2), 2, 2, 0, 0, 1), 2, 2, 1, 1, 1);
    assert bits == [true, false, false, false, false, false, false, false,
                    false, true, false, false, false, false, false, false];
    assert bits[0..8] == [true, false, false, false, false, false, false, false];
    assert bits[8..16] == [false, true, false, false, false, false, false, false];
  }

  /** `new` accepts a zero dimension, but the encoder refuses the header of a 0 x 3 or a
      5 x 0 image, so `to_png` panics on both; a 1 x 1 image is accepted. */
  method ZeroDimensionRejected() returns (zeroWide: EncodeInput, zeroHigh: EncodeInput, single: EncodeInput)
    ensures !Acceptable(zeroWide) && zeroWide.width == 0 && zeroWide.height == 3
    ensures !Acceptable(zeroHigh) && zeroHigh.width == 5 && zeroHigh.height == 0
    ensures Acceptable(single) && single.width == 1 && single.height == 1
  {
    var a := new PngIndexed(0, 3);
    zeroWide := a.ToPng();
    var b := new PngIndexed(5, 0);
    zeroHigh := b.ToPng();
    var c := new PngIndexed(1, 1);
    single := c.ToPng();
  }

  /** A 9 x 1 image has a 16-bit stride; setting pixel (8, 0) sets the high-order bit of
      the row's second byte and nothing else. */
  method NineWideSecondByte() returns (raw: seq<bv8>)
    ensures raw == [0x00, 0x80]
  {
    var png := new PngIndexed(9, 1);
    png.PutPixel(8, 0, 1);
    raw := png.RawBytes();
    NineWideBytes();
  }

  /** The bits and bytes of the 9 x 1 image after writing pixel (8, 0). */
  lemma NineWideBytes()
    ensures PackBytes(WritePixel(Blank(9, 1), 9, 1, 8, 0, 1)) == [0x00, 0x80]
  {
    var bits := WritePixel(Blank(9, 1), 9, 1, 8, 0, 1);
    assert bits[0..8] == [false, false, false, false, false, false, false, false];
    assert bits[8..16] == [true, false, false, false, false, false, false, false];
  }
}
