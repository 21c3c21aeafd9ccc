/** Row stride and flat bit addressing of the 1-bit-per-pixel indexed image buffer.

    Every row of the buffer is stored in `Stride(width)` bits: the width rounded up to a
    whole number of bytes. Pixel (x, y) lives at flat bit index `y * stride + x`.
 */
module Layout {

  /** Rust's `u32`: the type of the buffer's width, height, stride and bit index. */
  newtype u32 = x: int | 0 <= x < 0x1_0000_0000

  const U32_MAX: int := 0xFFFF_FFFF

  /** Bits stored per row: the width rounded up to the next multiple of 8. */
  function Stride(width: nat): (s: nat)
    ensures s % 8 == 0
    ensures width <= s < width + 8
  {
    ((width + 7) / 8) * 8
  }

  /** Bytes stored per row: `ceil(width / 8)`, the least byte count holding `width` bits. */
  function RowBytes(width: nat): (n: nat)
    ensures 8 * n == Stride(width)
    ensures width <= 8 * n
    ensures n == 0 || 8 * (n - 1) < width
  {
    Stride(width) / 8
  }

  /** The stride is the only multiple of 8 in `[width, width + 8)`. */
  lemma StrideUnique(width: nat, m: nat)
    requires m % 8 == 0 && width <= m < width + 8
    ensures m == Stride(width)
  {
  }

  /** `new` computes `width + 7` and `stride * height` in u32 arithmetic; neither may overflow.
      (Every in-range bit index `y * stride + x` is then below `stride * height` and fits too.) */
  predicate NewFitsU32(width: nat, height: nat) {
    width + 7 <= U32_MAX && Stride(width) * height <= U32_MAX
  }

  /** The flat bit index of column `x` of row `y`. */
  function PixelIndex(stride: nat, x: nat, y: nat): nat {
    y * stride + x
  }

  lemma MulMonotone(a: nat, b: nat, s: nat)
    requires a <= b
    ensures a * s <= b * s
  {
  }

  /** Every cell of the stored grid, padding columns included, lies inside the buffer. */
  lemma CellInBuffer(stride: nat, height: nat, c: nat, y: nat)
    requires c < stride && y < height
    ensures PixelIndex(stride, c, y) < stride * height
  {
    MulMonotone(y + 1, height, stride);
  }

  /** Two cells of the stored grid (columns below the stride, padding included) share a
      bit index only when they are the same cell: rows never overlap. */
  lemma CellIndexInjective(stride: nat, c1: nat, y1: nat, c2: nat, y2: nat)
    requires c1 < stride && c2 < stride
    ensures PixelIndex(stride, c1, y1) == PixelIndex(stride, c2, y2) <==> c1 == c2 && y1 == y2
  {
    if y1 < y2 {
      MulMonotone(y1 + 1, y2, stride);
      assert PixelIndex(stride, c1, y1) < (y1 + 1) * stride <= PixelIndex(stride, c2, y2);
    } else if y2 < y1 {
      MulMonotone(y2 + 1, y1, stride);
      assert PixelIndex(stride, c2, y2) < (y2 + 1) * stride <= PixelIndex(stride, c1, y1);
    }
  }

  /** An in-range coordinate addresses a bit of its own row, before that row's padding,
      and inside the `stride * height` bits of the buffer. */
  lemma PixelIndexInRow(width: nat, height: nat, x: nat, y: nat)
    requires x < width && y < height
    ensures y * Stride(width) <= PixelIndex(Stride(width), x, y) < y * Stride(width) + width
    ensures PixelIndex(Stride(width), x, y) < Stride(width) * height
  {
    CellInBuffer(Stride(width), height, x, y);
  }

  /** A buffer of `height` rows holds a whole number of bytes: `RowBytes(width)` per row. */
  lemma BufferBytes(width: nat, height: nat)
    ensures Stride(width) * height == 8 * (height * RowBytes(width))
    ensures (Stride(width) * height) % 8 == 0
  {
    assert Stride(width) * height == 8 * (height * RowBytes(width));
  }

  /** Row `y` spans bits `[y * stride, (y + 1) * stride)` and bytes
      `[y * RowBytes, (y + 1) * RowBytes)`, both inside the buffer. */
  lemma RowSpan(width: nat, height: nat, y: nat)
    requires y < height
    ensures y * Stride(width) == 8 * (y * RowBytes(width))
    ensures y * Stride(width) + Stride(width) <= Stride(width) * height
    ensures y * RowBytes(width) + RowBytes(width) <= height * RowBytes(width)
  {
    MulMonotone(y + 1, height, Stride(width));
    MulMonotone(y + 1, height, RowBytes(width));
  }

  /** The backing byte that holds column `c` of row `y`. */
  function ByteIndex(width: nat, c: nat, y: nat): nat {
    y * RowBytes(width) + c / 8
  }

  /** With MSB-first storage, the bit of cell (c, y) is bit `c % 8` of byte
      `ByteIndex(width, c, y)`, and that byte is one of the `height * RowBytes(width)`
      bytes backing the buffer. */
  lemma CellByte(width: nat, height: nat, c: nat, y: nat)
    requires c < Stride(width) && y < height
    ensures PixelIndex(Stride(width), c, y) < Stride(width) * height
    ensures PixelIndex(Stride(width), c, y) / 8 == ByteIndex(width, c, y)
    ensures PixelIndex(Stride(width), c, y) % 8 == c % 8
    ensures ByteIndex(width, c, y) < height * RowBytes(width)
  {
    var n := RowBytes(width);
    CellInBuffer(Stride(width), height, c, y);
    assert y * Stride(width) == 8 * (y * n);
    CellInBuffer(n, height, c / 8, y);
  }
}
