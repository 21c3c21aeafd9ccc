/** The bit sequence of the indexed image buffer as a value: what `new` allocates, what one
    `put_pixel` does to it, and what any sequence of in-range `put_pixel` calls does to it. */
module Bitmap {
  import opened Layout

  datatype Option<T> = None | Some(value: T)

  /** A bit sequence with exactly the shape `new` allocates for a `width` x `height` image. */
  predicate Shaped(bits: seq<bool>, width: nat, height: nat) {
    |bits| == Stride(width) * height
  }

  /** The palette index (0 or 1) stored for pixel (x, y). */
  function PixelAt(bits: seq<bool>, width: nat, height: nat, x: nat, y: nat): bool
    requires Shaped(bits, width, height) && x < width && y < height
  {
    PixelIndexInRow(width, height, x, y);
    bits[PixelIndex(Stride(width), x, y)]
  }

  /** Every padding bit, that is, every stored column at or beyond the width, is 0. */
  predicate PaddingZero(bits: seq<bool>, width: nat, height: nat) {
    forall c, y :: 0 <= y < height && width <= c < Stride(width) ==>
      PixelIndex(Stride(width), c, y) < |bits| && !bits[PixelIndex(Stride(width), c, y)]
  }

  /** The bits `new` allocates: `stride * height` copies of the background index 0. */
  function Blank(width: nat, height: nat): (bits: seq<bool>)
    ensures Shaped(bits, width, height)
    ensures PaddingZero(bits, width, height)
    ensures forall x, y :: 0 <= x < width && 0 <= y < height ==> !PixelAt(bits, width, height, x, y)
  {
    var bits := seq(Stride(width) * height, _ => false);
    forall c: nat, y: nat | y < height && c < Stride(width)
      ensures PixelIndex(Stride(width), c, y) < |bits|
    {
      CellInBuffer(Stride(width), height, c, y);
    }
    bits
  }

  /** `put_pixel(x, y, pixel)`: bit `y * stride + x` becomes `pixel != 0`. */
  function WritePixel(bits: seq<bool>, width: nat, height: nat, x: nat, y: nat, pixel: bv8): (r: seq<bool>)
    requires Shaped(bits, width, height) && x < width && y < height
    ensures Shaped(r, width, height)
  {
    PixelIndexInRow(width, height, x, y);
    bits[PixelIndex(Stride(width), x, y) := pixel != 0]
  }

  /** After `put_pixel(x, y, pixel)`, pixel (x, y) holds `pixel != 0` and every other stored
      cell, in-range pixel or padding bit, of every row is unchanged. */
  lemma WritePixelEffect(bits: seq<bool>, width: nat, height: nat, x: nat, y: nat, pixel: bv8)
    requires Shaped(bits, width, height) && x < width && y < height
    ensures PixelAt(WritePixel(bits, width, height, x, y, pixel), width, height, x, y) == (pixel != 0)
    ensures forall c, y' :: 0 <= c < Stride(width) && 0 <= y' < height && (c != x || y' != y) ==>
      PixelIndex(Stride(width), c, y') < |bits| &&
      WritePixel(bits, width, height, x, y, pixel)[PixelIndex(Stride(width), c, y')]
        == bits[PixelIndex(Stride(width), c, y')]
  {
    var s := Stride(width);
    PixelIndexInRow(width, height, x, y);
    assert WritePixel(bits, width, height, x, y, pixel)[PixelIndex(s, x, y)] == (pixel != 0);
    forall c: nat, y': nat | c < s && y' < height && (c != x || y' != y)
      ensures PixelIndex(s, c, y') < |bits|
      ensures PixelIndex(s, c, y') != PixelIndex(s, x, y)
    {
      CellInBuffer(s, height, c, y');
      CellIndexInjective(s, c, y', x, y);
    }
  }

  /** A corollary: an in-range write never sets a padding bit. */
  lemma WritePixelKeepsPadding(bits: seq<bool>, width: nat, height: nat, x: nat, y: nat, pixel: bv8)
    requires Shaped(bits, width, height) && x < width && y < height
    requires PaddingZero(bits, width, height)
    ensures PaddingZero(WritePixel(bits, width, height, x, y, pixel), width, height)
  {
    WritePixelEffect(bits, width, height, x, y, pixel);
  }

  /** `put_pixel` depends on `pixel` only through `pixel != 0`, and repeating it changes nothing. */
  lemma WritePixelIdempotent(bits: seq<bool>, width: nat, height: nat, x: nat, y: nat, p: bv8, q: bv8)
    requires Shaped(bits, width, height) && x < width && y < height
    ensures (p != 0) == (q != 0) ==>
      WritePixel(bits, width, height, x, y, p) == WritePixel(bits, width, height, x, y, q)
    ensures WritePixel(WritePixel(bits, width, height, x, y, p), width, height, x, y, p)
      == WritePixel(bits, width, height, x, y, p)
  {
  }

  /** One call `put_pixel(x, y, pixel)`. */
  datatype Write = Write(x: nat, y: nat, pixel: bv8)

  predicate WritesInRange(writes: seq<Write>, width: nat, height: nat) {
    forall i :: 0 <= i < |writes| ==> writes[i].x < width && writes[i].y < height
  }

  /** The bits after the calls in `writes`, in order. */
  function ApplyWrites(bits: seq<bool>, width: nat, height: nat, writes: seq<Write>): (r: seq<bool>)
    requires Shaped(bits, width, height) && WritesInRange(writes, width, height)
    ensures Shaped(r, width, height)
    decreases |writes|
  {
    if |writes| == 0 then bits
    else
      ApplyWrites(WritePixel(bits, width, height, writes[0].x, writes[0].y, writes[0].pixel),
                  width, height, writes[1..])
  }

  /** The value of the last call in `writes` addressed to (x, y), if any. */
  function LastWrite(writes: seq<Write>, x: nat, y: nat): Option<bv8>
    decreases |writes|
  {
    if |writes| == 0 then None
    else if writes[|writes| - 1].x == x && writes[|writes| - 1].y == y then Some(writes[|writes| - 1].pixel)
    else LastWrite(writes[..|writes| - 1], x, y)
  }

  lemma {:induction false} ApplyWritesSnoc(bits: seq<bool>, width: nat, height: nat, writes: seq<Write>)
    requires Shaped(bits, width, height) && WritesInRange(writes, width, height) && |writes| > 0
    ensures ApplyWrites(bits, width, height, writes) ==
      WritePixel(ApplyWrites(bits, width, height, writes[..|writes| - 1]), width, height,
                 writes[|writes| - 1].x, writes[|writes| - 1].y, writes[|writes| - 1].pixel)
    decreases |writes|
  {
    if |writes| > 1 {
      var next := WritePixel(bits, width, height, writes[0].x, writes[0].y, writes[0].pixel);
      ApplyWritesSnoc(next, width, height, writes[1..]);
      assert writes[1..][..|writes| - 2] == writes[..|writes| - 1][1..];
    }
  }

  /** Padding bits stay 0 after any sequence of in-range writes. */
  lemma {:induction false} WritesKeepPadding(bits: seq<bool>, width: nat, height: nat, writes: seq<Write>)
    requires Shaped(bits, width, height) && WritesInRange(writes, width, height)
    requires PaddingZero(bits, width, height)
    ensures PaddingZero(ApplyWrites(bits, width, height, writes), width, height)
    decreases |writes|
  {
    if |writes| > 0 {
      var w := writes[0];
      WritePixelKeepsPadding(bits, width, height, w.x, w.y, w.pixel);
      WritesKeepPadding(WritePixel(bits, width, height, w.x, w.y, w.pixel), width, height, writes[1..]);
    }
  }

  /** Last write wins: after a sequence of in-range writes, pixel (x, y) holds the value
      (nonzero or not) of the last write to it, and its old value when there was none. */
  lemma {:induction false} PixelAfterWrites(bits: seq<bool>, width: nat, height: nat,
                                            writes: seq<Write>, x: nat, y: nat)
    requires Shaped(bits, width, height) && WritesInRange(writes, width, height)
    requires x < width && y < height
    ensures PixelAt(ApplyWrites(bits, width, height, writes), width, height, x, y) ==
      match LastWrite(writes, x, y)
      case Some(p) => p != 0
      case None => PixelAt(bits, width, height, x, y)
    decreases |writes|
  {
    if |writes| > 0 {
      var init := writes[..|writes| - 1];
      var w := writes[|writes| - 1];
      ApplyWritesSnoc(bits, width, height, writes);
      PixelAfterWrites(bits, width, height, init, x, y);
      var before := ApplyWrites(bits, width, height, init);
      WritePixelEffect(before, width, height, w.x, w.y, w.pixel);
    }
  }
}
