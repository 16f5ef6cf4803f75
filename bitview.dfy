/**
  The bit view of a byte buffer as the SSD1322's 3-wire serial interface clocks
  it out: byte 0 first, and inside every byte the most significant bit first.
  Bit `k` of a buffer is bit `7 - k % 8` (counting from the least significant
  end) of byte `k / 8`.  `Bits` and `Pack` turn a buffer into its bit stream
  and back; they are inverse to each other.
 */
module BitView {

  /** The byte with only bit `q` set, counting from the most significant bit (q == 0). */
  function Mask(q: nat): bv8
    requires q < 8
  {
    if q == 0 then 0x80 else Mask(q - 1) >> 1
  }

  /** The masks written out, for the proofs that need all eight at once. */
  lemma MaskTable(q: nat)
    requires q < 8
    ensures Mask(q) == if q == 0 then 0x80 else if q == 1 then 0x40 else if q == 2 then 0x20
      else if q == 3 then 0x10 else if q == 4 then 0x08 else if q == 5 then 0x04
      else if q == 6 then 0x02 else 0x01
  {
    if q == 0 {} else if q == 1 {} else if q == 2 {} else if q == 3 {}
    else if q == 4 {} else if q == 5 {} else if q == 6 {} else {}
  }

  /** Bit `q` of `x`, counting from the most significant bit (q == 0). */
  predicate BitOf(x: bv8, q: nat)
    requires q < 8
  {
    x & Mask(q) != 0
  }

  /** Bit `k` of the stream that `buf` is clocked out as. */
  predicate Bit(buf: seq<bv8>, k: nat)
    requires k < 8 * |buf|
  {
    BitOf(buf[k / 8], k % 8)
  }

  /** Bit `8j + q` of the stream is bit `q` of byte `j`. */
  lemma ByteBit(buf: seq<bv8>, j: nat, q: nat)
    requires j < |buf| && q < 8
    ensures 8 * j + q < 8 * |buf|
    ensures Bit(buf, 8 * j + q) == BitOf(buf[j], q)
  {
    assert (8 * j + q) / 8 == j && (8 * j + q) % 8 == q;
  }

  /** The whole stream of `buf`, one entry per clocked bit. */
  function Bits(buf: seq<bv8>): (r: seq<bool>)
    ensures |r| == 8 * |buf|
    ensures forall k | 0 <= k < |r| :: r[k] == Bit(buf, k)
  {
    seq(8 * |buf|, k requires 0 <= k < 8 * |buf| => Bit(buf, k))
  }

  /** The byte whose bits, most significant first, are `b[0]`, ..., `b[7]`. */
  function Byte8(b: seq<bool>): bv8
    requires |b| == 8
  {
    (if b[0] then 0x80 else 0) | (if b[1] then 0x40 else 0) |
    (if b[2] then 0x20 else 0) | (if b[3] then 0x10 else 0) |
    (if b[4] then 0x08 else 0) | (if b[5] then 0x04 else 0) |
    (if b[6] then 0x02 else 0) | (if b[7] then 0x01 else 0)
  }

  /** The buffer that clocks out the bit stream `bits` (a whole number of bytes). */
  function Pack(bits: seq<bool>): (r: seq<bv8>)
    requires |bits| % 8 == 0
    ensures |r| == |bits| / 8
  {
    seq(|bits| / 8, j requires 0 <= j < |bits| / 8 => Byte8(bits[8 * j .. 8 * j + 8]))
  }

  /** Reading bit `q` back out of an assembled byte gives the bit put there. */
  lemma Byte8Bit(b: seq<bool>, q: nat)
    requires |b| == 8 && q < 8
    ensures BitOf(Byte8(b), q) == b[q]
  {
    Byte8Masks(b);
    MaskTable(q);
  }

  lemma Byte8Masks(b: seq<bool>)
    requires |b| == 8
    ensures (Byte8(b) & 0x80 != 0) == b[0] && (Byte8(b) & 0x40 != 0) == b[1]
    ensures (Byte8(b) & 0x20 != 0) == b[2] && (Byte8(b) & 0x10 != 0) == b[3]
    ensures (Byte8(b) & 0x08 != 0) == b[4] && (Byte8(b) & 0x04 != 0) == b[5]
    ensures (Byte8(b) & 0x02 != 0) == b[6] && (Byte8(b) & 0x01 != 0) == b[7]
  {
  }

  /** A byte is determined by its eight bits. */
  lemma Byte8OfBits(x: bv8, b: seq<bool>)
    requires |b| == 8
    requires forall q | 0 <= q < 8 :: b[q] == BitOf(x, q)
    ensures Byte8(b) == x
  {
    assert b[0] == BitOf(x, 0) && b[1] == BitOf(x, 1) && b[2] == BitOf(x, 2) && b[3] == BitOf(x, 3);
    assert b[4] == BitOf(x, 4) && b[5] == BitOf(x, 5) && b[6] == BitOf(x, 6) && b[7] == BitOf(x, 7);
  }

  /** Two bytes with the same eight bits are equal. */
  lemma BitsDetermineByte(a: bv8, b: bv8)
    requires forall q | 0 <= q < 8 :: BitOf(a, q) == BitOf(b, q)
    ensures a == b
  {
    var bits := [BitOf(a, 0), BitOf(a, 1), BitOf(a, 2), BitOf(a, 3), BitOf(a, 4), BitOf(a, 5), BitOf(a, 6), BitOf(a, 7)];
    Byte8OfBits(a, bits);
    Byte8OfBits(b, bits);
  }

  /** Packing a bit stream and looking at it bit by bit gives the stream back. */
  lemma BitsOfPack(bits: seq<bool>)
    requires |bits| % 8 == 0
    ensures Bits(Pack(bits)) == bits
  {
    var p := Pack(bits);
    forall k | 0 <= k < |bits|
      ensures Bits(p)[k] == bits[k]
    {
      var j, q := k / 8, k % 8;
      Byte8Bit(bits[8 * j .. 8 * j + 8], q);
    }
  }

  /** Packing the bit stream of a buffer gives the buffer back. */
  lemma PackOfBits(buf: seq<bv8>)
    ensures Pack(Bits(buf)) == buf
  {
    var bits := Bits(buf);
    forall j | 0 <= j < |buf|
      ensures Pack(bits)[j] == buf[j]
    {
      var b := bits[8 * j .. 8 * j + 8];
      forall q | 0 <= q < 8
        ensures b[q] == BitOf(buf[j], q)
      {
        assert b[q] == bits[8 * j + q];
        assert (8 * j + q) / 8 == j && (8 * j + q) % 8 == q;
      }
      Byte8OfBits(buf[j], b);
    }
  }

  // Bit-level facts about the operators the 3-wire encoder uses.

  /** The driver's `a |= b`: `a` with the bits of `b` set as well. */
  function Or(a: bv8, b: bv8): bv8
  {
    a | b
  }

  lemma BitOfOr(a: bv8, b: bv8, q: nat)
    requires q < 8
    ensures BitOf(Or(a, b), q) == (BitOf(a, q) || BitOf(b, q))
  {
  }

  lemma BitOfZero(q: nat)
    requires q < 8
    ensures !BitOf(0, q)
  {
  }

  /** `x >> s`, one place at a time. */
  function Shr(x: bv8, s: nat): bv8
    requires s < 8
  {
    if s == 0 then x else Shr(x, s - 1) >> 1
  }

  /** `x << s`, one place at a time. */
  function Shl(x: bv8, s: nat): bv8
    requires s < 8
  {
    if s == 0 then x else Shl(x, s - 1) << 1
  }

  lemma ShrIs(x: bv8, s: nat)
    requires s < 8
    ensures Shr(x, s) == x >> s
  {
    if s == 0 {} else if s == 1 {} else if s == 2 {} else if s == 3 {}
    else if s == 4 {} else if s == 5 {} else if s == 6 {} else { assert Shr(x, 7) == x >> 7; }
  }

  lemma ShlIs(x: bv8, s: nat)
    requires s < 8
    ensures Shl(x, s) == x << s
  {
    if s == 0 {} else if s == 1 {} else if s == 2 {} else if s == 3 {}
    else if s == 4 {} else if s == 5 {} else if s == 6 {} else { assert Shl(x, 7) == x << 7; }
  }

  /** The flag mask of the driver, `1 << (7 - p)`, is `Mask(p)`. */
  lemma MaskIs(p: nat)
    requires p < 8
    ensures Mask(p) == 1 << (7 - p)
  {
    MaskTable(p);
    if p == 0 {} else if p == 1 {} else if p == 2 {} else if p == 3 {}
    else if p == 4 {} else if p == 5 {} else if p == 6 {} else { assert (1 as bv8) << (7 - p) == 1; }
  }

  /** `Mask(p)` sets exactly bit `p`. */
  lemma BitOfMask(p: nat, q: nat)
    requires p < 8 && q < 8
    ensures BitOf(Mask(p), q) == (q == p)
  {
    MaskTable(p);
    MaskTable(q);
  }

  /** `x >> 1` moves bit `q - 1` of `x` to bit `q`. */
  lemma BitOfShrOne(x: bv8, q: nat)
    requires q < 8
    ensures BitOf(x >> 1, q) == (1 <= q && BitOf(x, q - 1))
  {
    MaskTable(q);
    if 1 <= q { MaskTable(q - 1); }
  }

  /** `x << 1` moves bit `q + 1` of `x` to bit `q`. */
  lemma BitOfShlOne(x: bv8, q: nat)
    requires q < 8
    ensures BitOf(x << 1, q) == (q + 1 < 8 && BitOf(x, q + 1))
  {
    MaskTable(q);
    if q + 1 < 8 { MaskTable(q + 1); }
  }

  /** `x >> s` moves bit `q - s` of `x` to bit `q`, and clears the top `s` bits. */
  lemma {:induction false} BitOfShr(x: bv8, s: nat, q: nat)
    requires s < 8 && q < 8
    ensures BitOf(Shr(x, s), q) == (s <= q && BitOf(x, q - s))
  {
    if s > 0 {
      BitOfShrOne(Shr(x, s - 1), q);
      if 1 <= q { BitOfShr(x, s - 1, q - 1); }
    }
  }

  /** `x << s` moves bit `q + s` of `x` to bit `q`, and clears the low `s` bits. */
  lemma {:induction false} BitOfShl(x: bv8, s: nat, q: nat)
    requires s < 8 && q < 8
    ensures BitOf(Shl(x, s), q) == (q + s < 8 && BitOf(x, q + s))
  {
    if s > 0 {
      BitOfShlOne(Shl(x, s - 1), q);
      if q + 1 < 8 { BitOfShl(x, s - 1, q + 1); }
    }
  }
}
