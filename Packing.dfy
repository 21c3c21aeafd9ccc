/** The raw byte view of a bit vector stored most-significant-bit first (bitvec's `Msb0`
    order over `u8` storage): bit `i` of the vector is bit `7 - i % 8` of byte `i / 8`. */
module Packing {

  /** Bit `k` of byte `b`, counting from the most significant bit (k = 0) down to the least (k = 7). */
  predicate BitAt(b: bv8, k: nat)
    requires k < 8
  {
    b & Mask(k) != 0
  }

  /** The byte whose only set bit is bit `k`, counting from the most significant. */
  function Mask(k: nat): bv8
    requires k < 8
  {
    if k == 0 then 0x80 else if k == 1 then 0x40 else if k == 2 then 0x20 else if k == 3 then 0x10
    else if k == 4 then 0x08 else if k == 5 then 0x04 else if k == 6 then 0x02 else 0x01
  }

  /** The byte holding eight consecutive bits, the first in the high-order position. */
  function PackByte(bits: seq<bool>): (b: bv8)
    requires |bits| == 8
    ensures forall k :: 0 <= k < 8 ==> BitAt(b, k) == bits[k]
  {
    (if bits[0] then 0x80 else 0) | (if bits[1] then 0x40 else 0) |
    (if bits[2] then 0x20 else 0) | (if bits[3] then 0x10 else 0) |
    (if bits[4] then 0x08 else 0) | (if bits[5] then 0x04 else 0) |
    (if bits[6] then 0x02 else 0) | (if bits[7] then 0x01 else 0)
  }

  /** The eight bits of a byte, most significant first. */
  function UnpackByte(b: bv8): (bits: seq<bool>)
    ensures |bits| == 8
    ensures PackByte(bits) == b
  {
    seq(8, k requires 0 <= k < 8 => BitAt(b, k))
  }

  /** The backing bytes of a bit vector whose length is a whole number of bytes: byte `j`
      packs bits `8 * j` to `8 * j + 7`. */
  function PackBytes(bits: seq<bool>): (bytes: seq<bv8>)
    requires |bits| % 8 == 0
    ensures 8 * |bytes| == |bits|
  {
    seq(|bits| / 8, j requires 0 <= j < |bits| / 8 => PackByte(bits[8 * j..8 * j + 8]))
  }

  /** The bit vector stored in a byte sequence. */
  function UnpackBytes(bytes: seq<bv8>): (bits: seq<bool>)
    ensures |bits| == 8 * |bytes|
  {
    seq(8 * |bytes|, i requires 0 <= i < 8 * |bytes| => BitAt(bytes[i / 8], i % 8))
  }

  /** Bitvec's `Msb0` layout: bit `i` of the vector is bit `i % 8`, counted from the most
      significant end, of backing byte `i / 8`. */
  lemma PackBytesAt(bits: seq<bool>, i: nat)
    requires |bits| % 8 == 0 && i < |bits|
    ensures i / 8 < |PackBytes(bits)|
    ensures BitAt(PackBytes(bits)[i / 8], i % 8) == bits[i]
  {
    var j, k := i / 8, i % 8;
    assert bits[8 * j..8 * j + 8][k] == bits[i];
  }

  /** Reading the bits back out of the packed bytes gives the original bit vector. */
  lemma UnpackPack(bits: seq<bool>)
    requires |bits| % 8 == 0
    ensures UnpackBytes(PackBytes(bits)) == bits
  {
    forall i | 0 <= i < |bits|
      ensures UnpackBytes(PackBytes(bits))[i] == bits[i]
    {
      PackBytesAt(bits, i);
    }
  }

  /** The eight bits unpacked from byte `j` are that byte's bits. */
  lemma UnpackBytesByte(bytes: seq<bv8>, j: nat)
    requires j < |bytes|
    ensures UnpackBytes(bytes)[8 * j..8 * j + 8] == UnpackByte(bytes[j])
  {
    var mine, theirs := UnpackBytes(bytes)[8 * j..8 * j + 8], UnpackByte(bytes[j]);
    forall k | 0 <= k < 8
      ensures mine[k] == theirs[k]
    {
      UnpackBytesAt(bytes, j, k);
    }
    assert mine == theirs;
  }

  /** Bit `8 * j + k` of the unpacked bytes is bit `k` of byte `j`. */
  lemma UnpackBytesAt(bytes: seq<bv8>, j: nat, k: nat)
    requires j < |bytes| && k < 8
    ensures 8 * j + k < |UnpackBytes(bytes)|
    ensures UnpackBytes(bytes)[8 * j + k] == BitAt(bytes[j], k)
  {
    DivMod8(j, k);
  }

  lemma DivMod8(j: nat, k: nat)
    requires k < 8
    ensures (8 * j + k) / 8 == j && (8 * j + k) % 8 == k
  {
  }

  /** Packing the bits of a byte sequence gives the byte sequence back. */
  lemma PackUnpack(bytes: seq<bv8>)
    ensures PackBytes(UnpackBytes(bytes)) == bytes
  {
    forall j | 0 <= j < |bytes|
      ensures PackBytes(UnpackBytes(bytes))[j] == bytes[j]
    {
      var bits := UnpackBytes(bytes);
      UnpackBytesByte(bytes, j);
      assert PackBytes(bits)[j] == PackByte(bits[8 * j..8 * j + 8]) == PackByte(UnpackByte(bytes[j]));
    }
  }

  /** A byte-aligned run of bits, bits `8 * l` to `8 * h - 1`, is packed into bytes `l` to `h - 1`. */
  lemma PackBytesSlice(bits: seq<bool>, l: nat, h: nat)
    requires |bits| % 8 == 0 && l <= h && 8 * h <= |bits|
    ensures h <= |PackBytes(bits)|
    ensures PackBytes(bits)[l..h] == PackBytes(bits[8 * l..8 * h])
  {
    var run := bits[8 * l..8 * h];
    forall j | 0 <= j < h - l
      ensures PackBytes(bits)[l + j] == PackBytes(run)[j]
    {
      SliceOfSlice(bits, 8 * l, 8 * h, 8 * j, 8 * j + 8);
      assert 8 * (l + j) == 8 * l + 8 * j;
    }
  }

  /** A slice of a slice is a slice of the original. */
  lemma SliceOfSlice(s: seq<bool>, a: nat, b: nat, c: nat, d: nat)
    requires a <= b <= |s| && c <= d <= b - a
    ensures s[a..b][c..d] == s[a + c..a + d]
  {
    var mine, theirs := s[a..b][c..d], s[a + c..a + d];
    forall i | 0 <= i < d - c
      ensures mine[i] == theirs[i]
    {
    }
    assert mine == theirs;
  }
}
