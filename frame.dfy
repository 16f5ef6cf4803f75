/**
  The frame conversion of `ssd1322fb_update_display`: the framebuffer holds
  two 4-bit pixels per byte (left pixel in the upper nibble), the SSD1322 RAM
  write takes one byte per pixel with the grey level in both nibbles.
 */
module FrameConvert {
  import opened Ssd1322Defs

  /** `(byte & 0xF0) >> 4`: the left pixel of a framebuffer byte. */
  function Upper(b: bv8): (r: bv8)
    ensures r < 16 && r as int == b as int / 16
  {
    (b & 0xF0) >> 4
  }

  /** `byte & 0x0F`: the right pixel of a framebuffer byte. */
  function Lower(b: bv8): (r: bv8)
    ensures r < 16 && r as int == b as int % 16
  {
    b & 0x0F
  }

  /** `(n << 4) | n`: a grey level in both nibbles, that is `0x11 * n`. */
  function Dup(n: bv8): (r: bv8)
    requires n < 16
    ensures r as int == 0x11 * n as int
    ensures Upper(r) == n && Lower(r) == n
  {
    (n << 4) | n
  }

  /** The device buffer for framebuffer `fb`: byte `2k` from the upper nibble of `fb[k]`, byte `2k + 1` from the lower. */
  function Expand(fb: seq<bv8>): (r: seq<bv8>)
    ensures |r| == 2 * |fb|
  {
    seq(2 * |fb|, n requires 0 <= n < 2 * |fb| => if n % 2 == 0 then Dup(Upper(fb[n / 2])) else Dup(Lower(fb[n / 2])))
  }

  /** Both device bytes of framebuffer byte `k`. */
  lemma ExpandAt(fb: seq<bv8>, k: nat)
    requires k < |fb|
    ensures 2 * k + 1 < |Expand(fb)|
    ensures Expand(fb)[2 * k] == Dup(Upper(fb[k]))
    ensures Expand(fb)[2 * k + 1] == Dup(Lower(fb[k]))
  {
    assert (2 * k) / 2 == k && (2 * k + 1) / 2 == k;
  }

  /** The device bytes as grey levels: `0x11 * (fb[k] >> 4)` and `0x11 * (fb[k] & 0xF)`. */
  lemma ExpandValues(fb: seq<bv8>, k: nat)
    requires k < |fb|
    ensures 2 * k + 1 < |Expand(fb)|
    ensures Expand(fb)[2 * k] as int == 0x11 * (fb[k] as int / 16)
    ensures Expand(fb)[2 * k + 1] as int == 0x11 * (fb[k] as int % 16)
  {
    ExpandAt(fb, k);
  }

  /** Every device byte carries the same grey level in both nibbles. */
  lemma ExpandEqualNibbles(fb: seq<bv8>, n: nat)
    requires n < 2 * |fb|
    ensures Upper(Expand(fb)[n]) == Lower(Expand(fb)[n])
  {
    ExpandAt(fb, n / 2);
    assert n == 2 * (n / 2) || n == 2 * (n / 2) + 1;
  }

  /** Reassembles a framebuffer byte from its two device bytes. */
  function Join(hi: bv8, lo: bv8): (r: bv8)
    requires Upper(hi) == Lower(hi) && Upper(lo) == Lower(lo)
    ensures Upper(r) == Upper(hi) && Lower(r) == Lower(lo)
  {
    (hi & 0xF0) | (lo & 0x0F)
  }

  /** The framebuffer a device buffer came from, one byte per pair of device bytes. */
  function Compress(dev: seq<bv8>): (r: seq<bv8>)
    requires |dev| % 2 == 0
    requires forall n | 0 <= n < |dev| :: Upper(dev[n]) == Lower(dev[n])
    ensures |r| == |dev| / 2
  {
    seq(|dev| / 2, k requires 0 <= k < |dev| / 2 => Join(dev[2 * k], dev[2 * k + 1]))
  }

  /** A byte is determined by its two nibbles. */
  lemma NibblesDetermineByte(a: bv8, b: bv8)
    requires Upper(a) == Upper(b) && Lower(a) == Lower(b)
    ensures a == b
  {
  }

  /** No pixel is lost: compressing the expanded buffer gives the framebuffer back. */
  lemma CompressExpand(fb: seq<bv8>)
    ensures forall n | 0 <= n < |Expand(fb)| :: Upper(Expand(fb)[n]) == Lower(Expand(fb)[n])
    ensures Compress(Expand(fb)) == fb
  {
    var d := Expand(fb);
    forall n | 0 <= n < |d|
      ensures Upper(d[n]) == Lower(d[n])
    {
      ExpandEqualNibbles(fb, n);
    }
    forall k | 0 <= k < |fb|
      ensures Compress(d)[k] == fb[k]
    {
      ExpandAt(fb, k);
      NibblesDetermineByte(Compress(d)[k], fb[k]);
    }
  }

  /** The driver's expressions for the two device bytes of `b`. */
  lemma DuplicatedNibbles(b: bv8)
    ensures ((((b & 0xF0) >> 4) << 4) | ((b & 0xF0) >> 4)) == Dup(Upper(b))
    ensures (((b & 0x0F) << 4) | (b & 0x0F)) == Dup(Lower(b))
  {
  }

  /** The index the driver reads for row `i`, byte `j`: `i * SSD1322_HEIGHT + j`. */
  function SourceIndex(i: nat, j: nat): nat
  {
    i * Height + j
  }

  /**
    The stride `Height` is the row length `Width / 2` of the framebuffer, so the
    literal index is the row-major one, and the pairs `(i, j)` visited in loop
    order read bytes `0, 1, ..., 4095` once each.
   */
  lemma StrideIsRowMajor(i: nat, j: nat)
    requires i < Height && j < Width / 2
    ensures SourceIndex(i, j) == i * (Width / 2) + j
    ensures SourceIndex(i, j) < SmemLen
    ensures i == SourceIndex(i, j) / (Width / 2) && j == SourceIndex(i, j) % (Width / 2)
    ensures i * Width + 2 * j == 2 * SourceIndex(i, j)
  {
  }

  /**
    The nested loops of `ssd1322fb_update_display`: for each row `i` and byte
    `j`, split `image[i * Height + j]` into its nibbles and write each,
    duplicated, to `dup[i * Width + 2j]` and `dup[i * Width + 2j + 1]`.
   */
  method DuplicateImage(image: array<bv8>, dup: array<bv8>)
    requires image.Length == SmemLen && dup.Length == DeviceLen
    modifies dup
    ensures dup[..] == Expand(image[..])
  {
    var i := 0;
    while i < Height
      invariant 0 <= i <= Height
      invariant forall n | 0 <= n < 2 * (i * Height) :: dup[n] == Expand(image[..])[n]
    {
      DuplicateRow(image, dup, i);
      i := i + 1;
    }
    assert dup[..] == Expand(image[..]);
  }

  /** Where the device bytes of row `i`, byte `j` go, and what they are. */
  lemma PairStep(want: seq<bv8>, fb: seq<bv8>, i: nat, j: nat, b: bv8)
    requires want == Expand(fb) && |fb| == SmemLen && i < Height && j < Width / 2
    requires b == fb[i * Height + j]
    ensures i * Width + j * 2 == 2 * (i * Height + j) && i * Width + j * 2 + 1 < |want|
    ensures want[i * Width + j * 2] == (((b & 0xF0) >> 4) << 4) | ((b & 0xF0) >> 4)
    ensures want[i * Width + j * 2 + 1] == ((b & 0x0F) << 4) | (b & 0x0F)
  {
    StrideIsRowMajor(i, j);
    ExpandAt(fb, i * Height + j);
    DuplicatedNibbles(b);
  }

  /** The inner loop for row `i`: the device bytes of the row's `Width / 2` framebuffer bytes. */
  method DuplicateRow(image: array<bv8>, dup: array<bv8>, i: nat)
    requires image.Length == SmemLen && dup.Length == DeviceLen && i < Height && image != dup
    requires forall n | 0 <= n < 2 * (i * Height) :: dup[n] == Expand(image[..])[n]
    modifies dup
    ensures forall n | 0 <= n < 2 * ((i + 1) * Height) :: dup[n] == Expand(image[..])[n]
  {
    ghost var want := Expand(image[..]);
    var j := 0;
    while j < Width / 2
      invariant 0 <= j <= Width / 2
      invariant forall n | 0 <= n < 2 * (i * Height + j) :: dup[n] == want[n]
    {
      var b := image[i * Height + j];
      var upperNibble := (b & 0xF0) >> 4;
      var lowerNibble := b & 0x0F;
      PairStep(want, image[..], i, j, b);
      dup[i * Width + j * 2] := (upperNibble << 4) | upperNibble;
      dup[i * Width + j * 2 + 1] := (lowerNibble << 4) | lowerNibble;
      j := j + 1;
    }
  }
}
