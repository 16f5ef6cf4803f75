/**
  The 3-wire encoder of `ssd1322_cmd`: one command byte and `n` data bytes
  become a stream of `n + 1` nine-bit words, clocked most significant bit
  first.  The first word is a 0 flag (D/C low: command) followed by the
  command; each later word is a 1 flag (D/C high: data) followed by one data
  byte.  The stream is padded with zero bits to a whole number of bytes.

  `Encode` is the specification, defined through the bit view of module
  BitView; `FillCommand` is the in-place loop of the driver, proved to
  produce `Encode`; `Decode` drops the flags again and is proved inverse.
 */
module Packer {
  import opened BitView
  import opened Wrappers

  /** `total_bits` of `ssd1322_cmd`: nine bits per word, `n + 1` words. */
  function TotalBits(n: nat): nat
  {
    (n + 1) * 9
  }

  /** `total_bytes` of `ssd1322_cmd`: the bits rounded up to whole bytes. */
  function TotalBytes(n: nat): nat
  {
    (TotalBits(n) + 7) / 8
  }

  /** Payload of word `w`: the command for word 0, data byte `w - 1` after it. */
  function Word(cmd: bv8, data: seq<bv8>, w: nat): bv8
    requires w <= |data|
  {
    if w == 0 then cmd else data[w - 1]
  }

  /** Bit `m` of a nine-bit word on the wire: the D/C flag, then the byte, most significant bit first. */
  predicate WordBit(flag: bool, x: bv8, m: nat)
    requires m < 9
  {
    if m == 0 then flag else BitOf(x, m - 1)
  }

  /** Bit `k` of the wire stream: bit `k % 9` of word `k / 9`, and 0 after the last word. */
  predicate StreamBit(cmd: bv8, data: seq<bv8>, k: nat)
  {
    k < TotalBits(|data|) && WordBit(k / 9 > 0, Word(cmd, data, k / 9), k % 9)
  }

  /** `s` is the wire stream of `cmd` and `data`, cut to a whole number of bytes. */
  predicate IsStream(s: seq<bool>, cmd: bv8, data: seq<bv8>)
  {
    && |s| == 8 * TotalBytes(|data|)
    && forall k | 0 <= k < |s| :: s[k] == StreamBit(cmd, data, k)
  }

  /** The wire stream cut to a whole number of bytes. */
  function Stream(cmd: bv8, data: seq<bv8>): (s: seq<bool>)
    ensures IsStream(s, cmd, data)
  {
    seq(8 * TotalBytes(|data|), k requires 0 <= k => StreamBit(cmd, data, k))
  }

  /** The buffer `ssd1322_cmd` hands to the SPI transfer. */
  function Encode(cmd: bv8, data: seq<bv8>): (r: seq<bv8>)
    ensures |r| == TotalBytes(|data|)
  {
    Pack(Stream(cmd, data))
  }

  // ---------------------------------------------------------------------
  // Length and layout

  /** The words fill all but at most 7 bits of the buffer. */
  lemma TotalBytesBounds(n: nat)
    ensures TotalBytes(n) >= 2
    ensures TotalBits(n) <= 8 * TotalBytes(n) < TotalBits(n) + 8
    ensures 8 * TotalBytes(n) / 9 == n + 1
  {
  }

  /** The encoded buffer holds exactly `((n + 1) * 9 + 7) / 8` bytes. */
  lemma EncodeLength(cmd: bv8, data: seq<bv8>)
    ensures |Encode(cmd, data)| == ((|data| + 1) * 9 + 7) / 8
    ensures |Encode(cmd, data)| >= 2
  {
    TotalBytesBounds(|data|);
  }

  /** Bit `9w + m` of the stream is bit `m` of word `w`. */
  lemma StreamBitOfWord(cmd: bv8, data: seq<bv8>, w: nat, m: nat)
    requires w <= |data| && m < 9
    ensures 9 * w + m < TotalBits(|data|)
    ensures StreamBit(cmd, data, 9 * w + m) == WordBit(w > 0, Word(cmd, data, w), m)
  {
    assert (9 * w + m) / 9 == w && (9 * w + m) % 9 == m;
  }

  /** Every bit of the encoded buffer is the corresponding bit of the wire stream. */
  lemma EncodeBit(cmd: bv8, data: seq<bv8>, k: nat)
    requires k < 8 * |Encode(cmd, data)|
    ensures Bit(Encode(cmd, data), k) == StreamBit(cmd, data, k)
  {
    BitsOfPack(Stream(cmd, data));
    assert Bits(Encode(cmd, data))[k] == Stream(cmd, data)[k];
  }

  /** The encoded buffer clocks out exactly the wire stream. */
  lemma EncodeBits(cmd: bv8, data: seq<bv8>)
    ensures Bits(Encode(cmd, data)) == Stream(cmd, data)
  {
    BitsOfPack(Stream(cmd, data));
  }

  /** Hence the encoded buffer is filled, bit by bit, with the whole stream. */
  lemma EncodeFilled(cmd: bv8, data: seq<bv8>)
    ensures FilledUpTo(Encode(cmd, data), cmd, data, TotalBits(|data|))
  {
    EncodeBits(cmd, data);
    StreamFilled(Encode(cmd, data), Stream(cmd, data), cmd, data);
  }

  /** A buffer that clocks out the wire stream is filled with all of it. */
  lemma StreamFilled(e: seq<bv8>, s: seq<bool>, cmd: bv8, data: seq<bv8>)
    requires Bits(e) == s && IsStream(s, cmd, data)
    ensures FilledUpTo(e, cmd, data, TotalBits(|data|))
  {
    TotalBytesBounds(|data|);
    forall j, q | 0 <= j < |e| && 0 <= q < 8
      ensures BitOf(e[j], q) == (8 * j + q < TotalBits(|data|) && StreamBit(cmd, data, 8 * j + q))
    {
      ByteBit(e, j, q);
      assert s[8 * j + q] == Bit(e, 8 * j + q);
    }
  }

  /** The flag of word `w` in the encoded buffer: 0 for the command, 1 for data. */
  lemma FlagOfWord(cmd: bv8, data: seq<bv8>, w: nat)
    requires w <= |data|
    ensures 9 * w + 9 <= 8 * |Encode(cmd, data)|
    ensures Bit(Encode(cmd, data), 9 * w) == (w > 0)
  {
    TotalBytesBounds(|data|);
    StreamBitOfWord(cmd, data, w, 0);
    EncodeBit(cmd, data, 9 * w);
  }

  /** Payload bit `m` of word `w` in the encoded buffer, most significant first. */
  lemma PayloadOfWord(cmd: bv8, data: seq<bv8>, w: nat, m: nat)
    requires w <= |data| && m < 8
    ensures 9 * w + 9 <= 8 * |Encode(cmd, data)|
    ensures Bit(Encode(cmd, data), 9 * w + 1 + m) == BitOf(Word(cmd, data, w), m)
  {
    TotalBytesBounds(|data|);
    StreamBitOfWord(cmd, data, w, 1 + m);
    EncodeBit(cmd, data, 9 * w + 1 + m);
  }

  /** The padding after the last word is zero. */
  lemma PaddingIsZero(cmd: bv8, data: seq<bv8>, k: nat)
    requires TotalBits(|data|) <= k < 8 * |Encode(cmd, data)|
    ensures !Bit(Encode(cmd, data), k)
  {
    EncodeBit(cmd, data, k);
  }

  /** Byte 0 of a filled buffer holds the command flag 0 and the top seven bits of the command. */
  lemma FirstByteBit(e: seq<bv8>, cmd: bv8, data: seq<bv8>, q: nat)
    requires |e| == TotalBytes(|data|) && FilledUpTo(e, cmd, data, TotalBits(|data|)) && q < 8
    ensures BitOf(e[0], q) == BitOf(cmd >> 1, q)
  {
    TotalBytesBounds(|data|);
    FilledBit(e, cmd, data, TotalBits(|data|), 0, q);
    StreamBitOfWord(cmd, data, 0, q);
    BitOfShrOne(cmd, q);
  }

  /** Bit 0 of byte 1 of a filled buffer is the command's last bit. */
  lemma SecondByteTop(e: seq<bv8>, cmd: bv8, data: seq<bv8>)
    requires |e| == TotalBytes(|data|) && FilledUpTo(e, cmd, data, TotalBits(|data|))
    ensures |e| >= 2 && BitOf(e[1], 0) == BitOf(cmd, 7)
  {
    TotalBytesBounds(|data|);
    FilledBit(e, cmd, data, TotalBits(|data|), 1, 0);
    StreamBitOfWord(cmd, data, 0, 8);
  }

  /** The first two bytes of a filled buffer: `cmd >> 1`, then `cmd`'s low bit on top. */
  lemma FilledCommandBytes(e: seq<bv8>, cmd: bv8, data: seq<bv8>)
    requires |e| == TotalBytes(|data|) && FilledUpTo(e, cmd, data, TotalBits(|data|))
    ensures |e| >= 2
    ensures e[0] == cmd >> 1
    ensures e[1] & 0x80 == (cmd & 1) << 7
  {
    forall q | 0 <= q < 8
      ensures BitOf(e[0], q) == BitOf(cmd >> 1, q)
    {
      FirstByteBit(e, cmd, data, q);
    }
    BitsDetermineByte(e[0], cmd >> 1);
    SecondByteTop(e, cmd, data);
    TopBit(e[1], cmd);
  }

  /** Hence `buf[0] == cmd >> 1` and the top bit of `buf[1]` is `cmd & 1`. */
  lemma CommandBytes(cmd: bv8, data: seq<bv8>)
    ensures |Encode(cmd, data)| >= 2
    ensures Encode(cmd, data)[0] == cmd >> 1
    ensures Encode(cmd, data)[1] & 0x80 == (cmd & 1) << 7
  {
    EncodeFilled(cmd, data);
    FilledCommandBytes(Encode(cmd, data), cmd, data);
  }

  lemma TopBit(b: bv8, cmd: bv8)
    requires BitOf(b, 0) == BitOf(cmd, 7)
    ensures b & 0x80 == (cmd & 1) << 7
  {
    MaskTable(0);
    MaskTable(7);
  }

  /** Byte 1 of a filled two-byte buffer: the command's low bit, then seven zeros of padding. */
  lemma SecondByteBit(e: seq<bv8>, cmd: bv8, q: nat)
    requires |e| == 2 && FilledUpTo(e, cmd, [], 9) && q < 8
    ensures BitOf(e[1], q) == BitOf((cmd & 1) << 7, q)
  {
    FilledBit(e, cmd, [], 9, 1, q);
    BitOfShlSeven(cmd & 1, q);
    if q == 0 {
      StreamBitOfWord(cmd, [], 0, 8);
      LowBit(cmd);
    }
  }

  /** A filled two-byte buffer is `[cmd >> 1, (cmd & 1) << 7]`. */
  lemma FilledWithoutData(e: seq<bv8>, cmd: bv8)
    requires |e| == 2 && FilledUpTo(e, cmd, [], 9)
    ensures e == [cmd >> 1, (cmd & 1) << 7]
  {
    FilledCommandBytes(e, cmd, []);
    forall q | 0 <= q < 8
      ensures BitOf(e[1], q) == BitOf((cmd & 1) << 7, q)
    {
      SecondByteBit(e, cmd, q);
    }
    BitsDetermineByte(e[1], (cmd & 1) << 7);
  }

  /** A command without data is two bytes: `cmd >> 1`, then `cmd`'s low bit on top of seven zeros. */
  lemma EncodeWithoutData(cmd: bv8)
    ensures Encode(cmd, []) == [cmd >> 1, (cmd & 1) << 7]
  {
    EncodeFilled(cmd, []);
    FilledWithoutData(Encode(cmd, []), cmd);
  }

  lemma LowBit(x: bv8)
    ensures BitOf(x & 1, 7) == BitOf(x, 7)
  {
    MaskTable(7);
  }

  // ---------------------------------------------------------------------
  // Decoding: drop every ninth bit

  /** Payload of word `w` of a bit stream: the eight bits after its flag. */
  function ReadWord(bits: seq<bool>, w: nat): bv8
    requires 9 * w + 9 <= |bits|
  {
    Byte8(bits[9 * w + 1 .. 9 * w + 9])
  }

  /**
    A bit stream shaped like an encoding: a whole number of bytes just large
    enough for its words, a command flag 0, data flags 1, and zero padding.
   */
  predicate Framed(bits: seq<bool>)
  {
    var words := |bits| / 9;
    && words > 0
    && |bits| == 8 * TotalBytes(words - 1)
    && !bits[0]
    && (forall w | 1 <= w < words :: bits[9 * w])
    && (forall k | 9 * words <= k < |bits| :: !bits[k])
  }

  /** The payloads of all whole words of a bit stream: the first one and the rest. */
  function Payloads(bits: seq<bool>): (r: (bv8, seq<bv8>))
    requires |bits| >= 9
    ensures |r.1| == |bits| / 9 - 1
  {
    (ReadWord(bits, 0), seq(|bits| / 9 - 1, i requires 0 <= i < |bits| / 9 - 1 => ReadWord(bits, i + 1)))
  }

  /**
    Recovers `(cmd, data)` from a buffer, or `None` when the buffer is not an
    encoding: wrong length for its word count, a wrong D/C flag, or a non-zero
    padding bit.
   */
  function Decode(buf: seq<bv8>): (r: Option<(bv8, seq<bv8>)>)
  {
    if Framed(Bits(buf)) then Some(Payloads(Bits(buf))) else None
  }

  /** Reading a word of the wire stream gives back its payload. */
  lemma ReadWordOfStream(s: seq<bool>, cmd: bv8, data: seq<bv8>, w: nat)
    requires IsStream(s, cmd, data) && w <= |data|
    ensures 9 * w + 9 <= |s|
    ensures ReadWord(s, w) == Word(cmd, data, w)
  {
    TotalBytesBounds(|data|);
    var b := s[9 * w + 1 .. 9 * w + 9];
    forall q | 0 <= q < 8
      ensures b[q] == BitOf(Word(cmd, data, w), q)
    {
      StreamBitOfWord(cmd, data, w, 1 + q);
      assert b[q] == s[9 * w + (1 + q)];
    }
    Byte8OfBits(Word(cmd, data, w), b);
  }

  /** The wire stream has the shape `Decode` checks for. */
  lemma StreamFramed(s: seq<bool>, cmd: bv8, data: seq<bv8>)
    requires IsStream(s, cmd, data)
    ensures Framed(s)
    ensures |s| / 9 == |data| + 1
  {
    TotalBytesBounds(|data|);
    StreamBitOfWord(cmd, data, 0, 0);
    forall w | 1 <= w < |data| + 1
      ensures s[9 * w]
    {
      StreamBitOfWord(cmd, data, w, 0);
    }
  }

  /** The payloads of a stream whose words read back as `cmd` and `data`. */
  lemma PayloadsOf(bits: seq<bool>, cmd: bv8, data: seq<bv8>)
    requires |bits| / 9 == |data| + 1
    requires ReadWord(bits, 0) == cmd
    requires forall i | 0 <= i < |data| :: ReadWord(bits, i + 1) == data[i]
    ensures Payloads(bits) == (cmd, data)
  {
    assert Payloads(bits).1 == data;
  }

  /** The payloads of the wire stream are the command and the data. */
  lemma StreamPayloads(s: seq<bool>, cmd: bv8, data: seq<bv8>)
    requires IsStream(s, cmd, data)
    ensures Payloads(s) == (cmd, data)
  {
    TotalBytesBounds(|data|);
    ReadWordOfStream(s, cmd, data, 0);
    forall i | 0 <= i < |data|
      ensures ReadWord(s, i + 1) == data[i]
    {
      DataWordOfStream(s, cmd, data, i);
    }
    PayloadsOf(s, cmd, data);
  }

  lemma DataWordOfStream(s: seq<bool>, cmd: bv8, data: seq<bv8>, i: nat)
    requires IsStream(s, cmd, data) && i < |data|
    ensures 9 * (i + 1) + 9 <= |s|
    ensures ReadWord(s, i + 1) == data[i]
  {
    ReadWordOfStream(s, cmd, data, i + 1);
  }

  /** No information is lost: decoding an encoding recovers the command and its data. */
  lemma DecodeEncode(cmd: bv8, data: seq<bv8>)
    ensures Decode(Encode(cmd, data)) == Some((cmd, data))
  {
    BitsOfPack(Stream(cmd, data));
    StreamFramed(Stream(cmd, data), cmd, data);
    StreamPayloads(Stream(cmd, data), cmd, data);
  }

  /** A framed stream's padding bits are those of the stream of its payloads. */
  lemma FramedPadding(bits: seq<bool>, cmd: bv8, data: seq<bv8>, k: nat)
    requires Framed(bits) && Payloads(bits) == (cmd, data)
    requires 9 * (|bits| / 9) <= k < |bits|
    ensures bits[k] == StreamBit(cmd, data, k)
  {
  }

  /** A framed stream's flag bits are those of the stream of its payloads. */
  lemma FramedFlag(bits: seq<bool>, cmd: bv8, data: seq<bv8>, w: nat)
    requires Framed(bits) && Payloads(bits) == (cmd, data)
    requires w < |bits| / 9
    ensures bits[9 * w] == StreamBit(cmd, data, 9 * w)
  {
    StreamBitOfWord(cmd, data, w, 0);
  }

  /** A framed stream's payload bits are those of the stream of its payloads. */
  lemma FramedPayload(bits: seq<bool>, cmd: bv8, data: seq<bv8>, w: nat, q: nat)
    requires |bits| >= 9 && Payloads(bits) == (cmd, data)
    requires w < |bits| / 9 && q < 8
    ensures bits[9 * w + 1 + q] == StreamBit(cmd, data, 9 * w + 1 + q)
  {
    StreamBitOfWord(cmd, data, w, 1 + q);
    WordOfPayloads(bits, cmd, data, w);
    ReadWordBit(bits, w, q);
  }

  /** Word `w` of the payloads is the word read at `9w`. */
  lemma WordOfPayloads(bits: seq<bool>, cmd: bv8, data: seq<bv8>, w: nat)
    requires |bits| >= 9 && Payloads(bits) == (cmd, data) && w < |bits| / 9
    ensures w <= |data| && 9 * w + 9 <= |bits|
    ensures Word(cmd, data, w) == ReadWord(bits, w)
  {
    if w > 0 {
      assert data[w - 1] == Payloads(bits).1[w - 1];
    }
  }

  /** Bit `q` of the word read at `9w` is bit `9w + 1 + q` of the stream. */
  lemma ReadWordBit(bits: seq<bool>, w: nat, q: nat)
    requires 9 * w + 9 <= |bits| && q < 8
    ensures BitOf(ReadWord(bits, w), q) == bits[9 * w + 1 + q]
  {
    var b := bits[9 * w + 1 .. 9 * w + 9];
    Byte8Bit(b, q);
    assert b[q] == bits[9 * w + 1 + q];
  }

  /** Every bit of a framed stream is that of the stream of its payloads. */
  lemma FramedBit(bits: seq<bool>, cmd: bv8, data: seq<bv8>, k: nat)
    requires Framed(bits) && Payloads(bits) == (cmd, data)
    requires k < |bits|
    ensures bits[k] == StreamBit(cmd, data, k)
  {
    var words := |bits| / 9;
    if k >= 9 * words {
      FramedPadding(bits, cmd, data, k);
    } else {
      var w, m := k / 9, k % 9;
      assert k == 9 * w + m;
      if m == 0 {
        FramedFlag(bits, cmd, data, w);
      } else {
        FramedPayload(bits, cmd, data, w, m - 1);
      }
    }
  }

  /** The other direction: whatever decodes to `(cmd, data)` is the encoding of it. */
  lemma DecodeSound(buf: seq<bv8>, cmd: bv8, data: seq<bv8>)
    requires Decode(buf) == Some((cmd, data))
    ensures buf == Encode(cmd, data)
  {
    var bits := Bits(buf);
    var s := Stream(cmd, data);
    assert |data| == |bits| / 9 - 1;
    assert |s| == |bits|;
    forall k | 0 <= k < |bits|
      ensures bits[k] == s[k]
    {
      FramedBit(bits, cmd, data, k);
    }
    assert bits == s;
    PackOfBits(buf);
  }

  /** The encoding is injective: distinct invocations give distinct buffers. */
  lemma EncodeInjective(cmd1: bv8, data1: seq<bv8>, cmd2: bv8, data2: seq<bv8>)
    requires Encode(cmd1, data1) == Encode(cmd2, data2)
    ensures cmd1 == cmd2 && data1 == data2
  {
    DecodeEncode(cmd1, data1);
    DecodeEncode(cmd2, data2);
  }

  // ---------------------------------------------------------------------
  // The in-place loop of `ssd1322_cmd`

  /**
    Bits `[0, bitOffset)` of `buf` are those of the stream, every later bit is
    still 0 (bit `q` of byte `j` is bit `8j + q` of the stream).
   */
  predicate FilledUpTo(buf: seq<bv8>, cmd: bv8, data: seq<bv8>, bitOffset: nat)
  {
    forall j, q | 0 <= j < |buf| && 0 <= q < 8 :: BitOf(buf[j], q) == (8 * j + q < bitOffset && StreamBit(cmd, data, 8 * j + q))
  }

  /** Bit `q` of what the driver ORs into the byte where a word starts, its flag at bit `p`. */
  predicate HeadBit(flag: bool, x: bv8, p: nat, q: nat)
    requires p < 8 && q < 8
  {
    p <= q && WordBit(flag, x, q - p)
  }

  /** Bit `q` of what the driver ORs into the byte after it: the word's last `p + 1` bits. */
  predicate TailBit(x: bv8, p: nat, q: nat)
    requires p < 8 && q < 8
  {
    q <= p && BitOf(x, 7 - p + q)
  }

  /** ORing into `before` gave `after`, which holds the head bits of a word with flag at bit `p`. */
  predicate HeadUpdated(before: bv8, after: bv8, flag: bool, x: bv8, p: nat)
    requires p < 8
  {
    forall q | 0 <= q < 8 :: BitOf(after, q) == (BitOf(before, q) || HeadBit(flag, x, p, q))
  }

  /** ORing into `before` gave `after`, which holds the tail bits of a word with flag at bit `p`. */
  predicate TailUpdated(before: bv8, after: bv8, x: bv8, p: nat)
    requires p < 8
  {
    forall q | 0 <= q < 8 :: BitOf(after, q) == (BitOf(before, q) || TailBit(x, p, q))
  }

  lemma TailBitOf(b: bv8, x: bv8, p: nat, q: nat)
    requires p < 8 && q < 8
    ensures BitOf(Or(b, Shl(x, 7 - p)), q) == (BitOf(b, q) || TailBit(x, p, q))
  {
    OrShlBit(b, x, 7 - p, q);
  }

  lemma OrShlBit(b: bv8, x: bv8, s: nat, q: nat)
    requires s < 8 && q < 8
    ensures BitOf(Or(b, Shl(x, s)), q) == (BitOf(b, q) || (q + s < 8 && BitOf(x, q + s)))
  {
    BitOfOr(b, Shl(x, s), q);
    BitOfShl(x, s, q);
  }

  lemma DataHeadBit(b: bv8, x: bv8, p: nat, q: nat)
    requires p < 7 && q < 8
    ensures BitOf(Or(Or(b, Mask(p)), Shr(x, p + 1)), q) == (BitOf(b, q) || HeadBit(true, x, p, q))
  {
    BitOfMask(p, q);
    BitOfShr(x, p + 1, q);
    HeadOfParts(b, Mask(p), Shr(x, p + 1), x, p, q);
  }

  /** The head bits from the flag `f` and the shifted byte `y`, whatever computed them. */
  lemma HeadOfParts(b: bv8, f: bv8, y: bv8, x: bv8, p: nat, q: nat)
    requires p < 7 && q < 8
    requires BitOf(f, q) == (q == p)
    requires BitOf(y, q) == (p + 1 <= q && BitOf(x, q - (p + 1)))
    ensures BitOf(Or(Or(b, f), y), q) == (BitOf(b, q) || HeadBit(true, x, p, q))
  {
    BitOfOr(Or(b, f), y, q);
    BitOfOr(b, f, q);
  }

  lemma OrFlagBit(b: bv8, p: nat, q: nat)
    requires p < 8 && q < 8
    ensures BitOf(Or(b, Mask(p)), q) == (BitOf(b, q) || q == p)
  {
    BitOfOr(b, Mask(p), q);
    BitOfMask(p, q);
  }

  lemma FlagOnlyHeadBit(b: bv8, x: bv8, p: nat, q: nat)
    requires p == 7 && q < 8
    ensures BitOf(Or(b, Mask(p)), q) == (BitOf(b, q) || HeadBit(true, x, p, q))
  {
    OrFlagBit(b, p, q);
  }

  /** `cmd >> 1` into byte 0: the command word's flag 0 and first seven bits. */
  lemma CommandHead(b: bv8, h: bv8, cmd: bv8)
    requires h == Or(b, cmd >> 1)
    ensures HeadUpdated(b, h, false, cmd, 0)
  {
    forall q | 0 <= q < 8
      ensures BitOf(h, q) == (BitOf(b, q) || HeadBit(false, cmd, 0, q))
    {
      BitOfOr(b, cmd >> 1, q);
      BitOfShrOne(cmd, q);
    }
  }

  /** `cmd << 7` into byte 1: the command word's last bit. */
  lemma CommandTail(b: bv8, t: bv8, cmd: bv8)
    requires t == Or(b, cmd << 7)
    ensures TailUpdated(b, t, cmd, 0)
  {
    forall q | 0 <= q < 8
      ensures BitOf(t, q) == (BitOf(b, q) || TailBit(cmd, 0, q))
    {
      BitOfOr(b, cmd << 7, q);
      BitOfShlSeven(cmd, q);
    }
  }

  /** `x << 7` keeps only the last bit of `x`, moved to the top. */
  lemma BitOfShlSeven(x: bv8, q: nat)
    requires q < 8
    ensures BitOf(x << 7, q) == (q == 0 && BitOf(x, 7))
  {
    MaskTable(q);
    MaskTable(7);
  }

  /** `1 << (7 - p)` then `x >> (p + 1)`: a data word's flag and first bits, for `p < 7`. */
  lemma DataHeadBits(b: bv8, x: bv8, p: nat)
    requires p < 7
    ensures HeadUpdated(b, Or(Or(b, Mask(p)), Shr(x, p + 1)), true, x, p)
  {
    forall q | 0 <= q < 8
      ensures BitOf(Or(Or(b, Mask(p)), Shr(x, p + 1)), q) == (BitOf(b, q) || HeadBit(true, x, p, q))
    {
      DataHeadBit(b, x, p, q);
    }
  }

  /** For `p == 7` only the flag lands in the word's first byte. */
  lemma FlagOnlyHeadBits(b: bv8, x: bv8, p: nat)
    requires p == 7
    ensures HeadUpdated(b, Or(b, Mask(p)), true, x, p)
  {
    forall q | 0 <= q < 8
      ensures BitOf(Or(b, Mask(p)), q) == (BitOf(b, q) || HeadBit(true, x, p, q))
    {
      FlagOnlyHeadBit(b, x, p, q);
    }
  }

  /** `x << (7 - p)`: the rest of a data word in the next byte. */
  lemma DataTailBits(b: bv8, x: bv8, p: nat)
    requires p < 8
    ensures TailUpdated(b, Or(b, Shl(x, 7 - p)), x, p)
  {
    forall q | 0 <= q < 8
      ensures BitOf(Or(b, Shl(x, 7 - p)), q) == (BitOf(b, q) || TailBit(x, p, q))
    {
      TailBitOf(b, x, p, q);
    }
  }

  /** One bit of a filled buffer. */
  lemma FilledBit(buf: seq<bv8>, cmd: bv8, data: seq<bv8>, bitOffset: nat, j: nat, q: nat)
    requires FilledUpTo(buf, cmd, data, bitOffset) && j < |buf| && q < 8
    ensures BitOf(buf[j], q) == (8 * j + q < bitOffset && StreamBit(cmd, data, 8 * j + q))
  {
  }

  /** In byte `j` where word `w` starts (its flag at bit `p`), the word's head bits join the filled prefix. */
  lemma HeadByteBit(b: bv8, a: bv8, cmd: bv8, data: seq<bv8>, w: nat, j: nat, p: nat, q: nat)
    requires w <= |data| && 9 * w == 8 * j + p && p < 8 && q < 8
    requires BitOf(b, q) == (8 * j + q < 9 * w && StreamBit(cmd, data, 8 * j + q))
    requires HeadUpdated(b, a, w > 0, Word(cmd, data, w), p)
    ensures BitOf(a, q) == (8 * j + q < 9 * w + 9 && StreamBit(cmd, data, 8 * j + q))
  {
    assert BitOf(a, q) == (BitOf(b, q) || HeadBit(w > 0, Word(cmd, data, w), p, q));
    if p <= q {
      StreamBitOfWord(cmd, data, w, q - p);
    }
  }

  /** In byte `j` after it, which was still zero, the word's tail bits join the filled prefix. */
  lemma TailByteBit(b: bv8, a: bv8, cmd: bv8, data: seq<bv8>, w: nat, j: nat, p: nat, q: nat)
    requires w <= |data| && 9 * w + 8 == 8 * j + p && p < 8 && q < 8
    requires !BitOf(b, q)
    requires TailUpdated(b, a, Word(cmd, data, w), p)
    ensures BitOf(a, q) == (8 * j + q < 9 * w + 9 && StreamBit(cmd, data, 8 * j + q))
  {
    assert BitOf(a, q) == TailBit(Word(cmd, data, w), p, q);
    if q <= p {
      StreamBitOfWord(cmd, data, w, 8 - p + q);
    }
  }

  /** A byte the word does not touch keeps its bits, which lie wholly before or wholly after the word. */
  lemma OutsideByteBit(b: bv8, a: bv8, cmd: bv8, data: seq<bv8>, w: nat, j: nat, q: nat)
    requires q < 8 && a == b
    requires 8 * j + q < 9 * w || 8 * j + q >= 9 * w + 9
    requires BitOf(b, q) == (8 * j + q < 9 * w && StreamBit(cmd, data, 8 * j + q))
    ensures BitOf(a, q) == (8 * j + q < 9 * w + 9 && StreamBit(cmd, data, 8 * j + q))
  {
  }

  /**
    Bit `q` of byte `j` after ORing word `w` into the bytes `bi` and `bi + 1`
    (its flag at bit `p` of byte `bi`) is the stream's bit when it comes before
    bit `9w + 9`, and 0 after that.
   */
  lemma WordStepBit(before: seq<bv8>, after: seq<bv8>, cmd: bv8, data: seq<bv8>, w: nat, bi: nat, p: nat, j: nat, q: nat)
    requires w <= |data| && |before| == |after| && 9 * w == 8 * bi + p && p < 8
    requires bi + 1 < |before| && j < |after| && q < 8
    requires BitOf(before[j], q) == (8 * j + q < 9 * w && StreamBit(cmd, data, 8 * j + q))
    requires HeadUpdated(before[bi], after[bi], w > 0, Word(cmd, data, w), p)
    requires TailUpdated(before[bi + 1], after[bi + 1], Word(cmd, data, w), p)
    requires j != bi && j != bi + 1 ==> after[j] == before[j]
    ensures BitOf(after[j], q) == (8 * j + q < 9 * w + 9 && StreamBit(cmd, data, 8 * j + q))
  {
    if j == bi {
      HeadByteBit(before[j], after[j], cmd, data, w, j, p, q);
    } else if j == bi + 1 {
      TailByteBit(before[j], after[j], cmd, data, w, j, p, q);
    } else {
      OutsideByteBit(before[j], after[j], cmd, data, w, j, q);
    }
  }

  /** Writing word `w` into the bytes `bi` and `bi + 1` extends the filled prefix by nine bits. */
  lemma WordStep(before: seq<bv8>, after: seq<bv8>, cmd: bv8, data: seq<bv8>, w: nat, bi: nat, p: nat)
    requires w <= |data| && |before| == |after| && 9 * w == 8 * bi + p && p < 8
    requires bi + 1 < |before|
    requires FilledUpTo(before, cmd, data, 9 * w)
    requires HeadUpdated(before[bi], after[bi], w > 0, Word(cmd, data, w), p)
    requires TailUpdated(before[bi + 1], after[bi + 1], Word(cmd, data, w), p)
    requires forall j | 0 <= j < |after| && j != bi && j != bi + 1 :: after[j] == before[j]
    ensures FilledUpTo(after, cmd, data, 9 * w + 9)
  {
    forall j, q | 0 <= j < |after| && 0 <= q < 8
      ensures BitOf(after[j], q) == (8 * j + q < 9 * w + 9 && StreamBit(cmd, data, 8 * j + q))
    {
      FilledBit(before, cmd, data, 9 * w, j, q);
      WordStepBit(before, after, cmd, data, w, bi, p, j, q);
    }
  }

  /** The byte where a data word starts, after the driver's ORs: the flag, then for `p < 7` the first bits. */
  lemma DataHead(b: bv8, h: bv8, x: bv8, p: nat)
    requires p < 8
    requires p < 7 ==> h == Or(Or(b, Mask(p)), Shr(x, p + 1))
    requires p == 7 ==> h == Or(b, Mask(p))
    ensures HeadUpdated(b, h, true, x, p)
  {
    if p < 7 {
      DataHeadBits(b, x, p);
    } else {
      FlagOnlyHeadBits(b, x, p);
    }
  }

  /** The byte after it: `x << (7 - p)`, which is `x` itself for `p == 7`. */
  lemma DataTail(b: bv8, t: bv8, x: bv8, p: nat)
    requires p < 8
    requires p < 7 ==> t == Or(b, Shl(x, 7 - p))
    requires p == 7 ==> t == Or(b, x)
    ensures TailUpdated(b, t, x, p)
  {
    if p == 7 {
      assert Shl(x, 7 - p) == x;
    }
    DataTailBits(b, x, p);
  }

  // The driver's writes, as functions of the buffer.

  /** The command word: `cmd >> 1` into byte 0 and `cmd << 7` into byte 1 (bit offset 1). */
  function WriteCommand(buf: seq<bv8>, cmd: bv8): (r: seq<bv8>)
    requires |buf| >= 2
    ensures |r| == |buf|
  {
    buf[0 := Or(buf[0], cmd >> 1)][1 := Or(buf[1], cmd << 7)]
  }

  /**
    One data word whose flag goes to bit `bitIndex` of byte `byteIndex`: the
    flag `1 << (7 - bitIndex)`, then the byte split over `byteIndex` and
    `byteIndex + 1`, the second write only inside the buffer.
   */
  function WriteData(buf: seq<bv8>, byteIndex: nat, bitIndex: nat, x: bv8): (r: seq<bv8>)
    requires byteIndex < |buf| && bitIndex < 8
    ensures |r| == |buf|
  {
    var flagged := buf[byteIndex := Or(buf[byteIndex], 1 << (7 - bitIndex))];
    if bitIndex < 7 then
      var b := flagged[byteIndex := Or(flagged[byteIndex], x >> (bitIndex + 1))];
      if byteIndex + 1 < |buf| then b[byteIndex + 1 := Or(b[byteIndex + 1], x << (7 - bitIndex))] else b
    else
      if byteIndex + 1 < |buf| then flagged[byteIndex + 1 := Or(flagged[byteIndex + 1], x)] else flagged
  }

  /** The zeroed buffer of `ssd1322_cmd` after the command word and the first `n` data words. */
  function Written(cmd: bv8, data: seq<bv8>, n: nat): (r: seq<bv8>)
    requires n <= |data|
    ensures |r| == TotalBytes(|data|)
  {
    TotalBytesBounds(|data|);
    if n == 0 then WriteCommand(seq(TotalBytes(|data|), _ => 0), cmd)
    else
      GuardHolds(|data|, n);
      WriteData(Written(cmd, data, n - 1), 9 * n / 8, 9 * n % 8, data[n - 1])
  }

  /** What one turn of the data loop needs: the word fits, and writing it gives the next `Written`. */
  lemma WrittenStep(cmd: bv8, data: seq<bv8>, i: nat, bitOffset: nat)
    requires i < |data| && bitOffset == 9 * (i + 1)
    ensures bitOffset / 8 + 1 < TotalBytes(|data|)
    ensures Written(cmd, data, i + 1) == WriteData(Written(cmd, data, i), bitOffset / 8, bitOffset % 8, data[i])
  {
    GuardHolds(|data|, i + 1);
  }

  /** The two bytes the command word lands in, and the rest of the buffer unchanged. */
  lemma WriteCommandValues(buf: seq<bv8>, cmd: bv8)
    requires |buf| >= 2
    ensures WriteCommand(buf, cmd)[0] == Or(buf[0], cmd >> 1)
    ensures WriteCommand(buf, cmd)[1] == Or(buf[1], cmd << 7)
    ensures forall j | 2 <= j < |buf| :: WriteCommand(buf, cmd)[j] == buf[j]
  {
  }

  /** Byte 0 gets the flag 0 and the command's top seven bits, byte 1 the command's last bit. */
  lemma WriteCommandBytes(buf: seq<bv8>, cmd: bv8)
    requires |buf| >= 2
    ensures HeadUpdated(buf[0], WriteCommand(buf, cmd)[0], false, cmd, 0)
    ensures TailUpdated(buf[1], WriteCommand(buf, cmd)[1], cmd, 0)
  {
    WriteCommandValues(buf, cmd);
    CommandHead(buf[0], WriteCommand(buf, cmd)[0], cmd);
    CommandTail(buf[1], WriteCommand(buf, cmd)[1], cmd);
  }

  /** The command word, written as the driver does, fills the first nine bits. */
  lemma WriteCommandFills(buf: seq<bv8>, cmd: bv8, data: seq<bv8>)
    requires |buf| == TotalBytes(|data|)
    requires FilledUpTo(buf, cmd, data, 0)
    ensures FilledUpTo(WriteCommand(buf, cmd), cmd, data, 9)
  {
    TotalBytesBounds(|data|);
    WriteCommandValues(buf, cmd);
    WriteCommandBytes(buf, cmd);
    WordStep(buf, WriteCommand(buf, cmd), cmd, data, 0, 0, 0);
  }

  /** The two bytes a data word lands in, as values. */
  lemma WriteDataValues(buf: seq<bv8>, bi: nat, p: nat, x: bv8)
    requires bi + 1 < |buf| && p < 8
    ensures var r := WriteData(buf, bi, p, x);
      && (p < 7 ==> r[bi] == Or(Or(buf[bi], 1 << (7 - p)), x >> (p + 1)))
      && (p == 7 ==> r[bi] == Or(buf[bi], 1 << (7 - p)))
      && (p < 7 ==> r[bi + 1] == Or(buf[bi + 1], x << (7 - p)))
      && (p == 7 ==> r[bi + 1] == Or(buf[bi + 1], x))
  {
  }

  /** The byte a data word starts in gets its flag and first bits. */
  lemma WriteDataHead(buf: seq<bv8>, bi: nat, p: nat, x: bv8)
    requires bi + 1 < |buf| && p < 8
    ensures HeadUpdated(buf[bi], WriteData(buf, bi, p, x)[bi], true, x, p)
  {
    WriteDataValues(buf, bi, p, x);
    MaskIs(p);
    if p < 7 {
      ShrIs(x, p + 1);
    }
    DataHead(buf[bi], WriteData(buf, bi, p, x)[bi], x, p);
  }

  /** The byte after it gets the rest of the word. */
  lemma WriteDataTail(buf: seq<bv8>, bi: nat, p: nat, x: bv8)
    requires bi + 1 < |buf| && p < 8
    ensures TailUpdated(buf[bi + 1], WriteData(buf, bi, p, x)[bi + 1], x, p)
  {
    WriteDataValues(buf, bi, p, x);
    if p < 7 {
      ShlIs(x, 7 - p);
    }
    DataTail(buf[bi + 1], WriteData(buf, bi, p, x)[bi + 1], x, p);
  }

  /** Outside those two bytes the buffer is unchanged. */
  lemma WriteDataFrame(buf: seq<bv8>, bi: nat, p: nat, x: bv8)
    requires bi + 1 < |buf| && p < 8
    ensures forall j | 0 <= j < |buf| && j != bi && j != bi + 1 :: WriteData(buf, bi, p, x)[j] == buf[j]
  {
  }

  /** Data word `w`, written as the driver does, extends the filled prefix by nine bits. */
  lemma WriteDataFills(buf: seq<bv8>, cmd: bv8, data: seq<bv8>, w: nat)
    requires 1 <= w <= |data| && |buf| == TotalBytes(|data|)
    requires FilledUpTo(buf, cmd, data, 9 * w)
    ensures 9 * w / 8 < |buf|
    ensures FilledUpTo(WriteData(buf, 9 * w / 8, 9 * w % 8, data[w - 1]), cmd, data, 9 * w + 9)
  {
    GuardHolds(|data|, w);
    var bi, p := 9 * w / 8, 9 * w % 8;
    WriteDataHead(buf, bi, p, data[w - 1]);
    WriteDataTail(buf, bi, p, data[w - 1]);
    WriteDataFrame(buf, bi, p, data[w - 1]);
    WordStep(buf, WriteData(buf, bi, p, data[w - 1]), cmd, data, w, bi, p);
  }

  /** After the command and `n` data words, the first `9(n + 1)` bits are the stream's. */
  lemma {:induction false} WrittenFills(cmd: bv8, data: seq<bv8>, n: nat)
    requires n <= |data|
    ensures FilledUpTo(Written(cmd, data, n), cmd, data, 9 * (n + 1))
  {
    if n == 0 {
      ZeroFilled(seq(TotalBytes(|data|), _ => 0), cmd, data);
      WriteCommandFills(seq(TotalBytes(|data|), _ => 0), cmd, data);
    } else {
      WrittenFills(cmd, data, n - 1);
      WriteDataFills(Written(cmd, data, n - 1), cmd, data, n);
    }
  }

  /** The driver's writes produce exactly the encoding. */
  lemma WrittenIsEncode(cmd: bv8, data: seq<bv8>)
    ensures Written(cmd, data, |data|) == Encode(cmd, data)
  {
    WrittenFills(cmd, data, |data|);
    FilledIsEncode(Written(cmd, data, |data|), cmd, data);
  }

  /** A buffer of the right size filled up to the last word is the encoding. */
  lemma FilledIsEncode(buf: seq<bv8>, cmd: bv8, data: seq<bv8>)
    requires |buf| == TotalBytes(|data|)
    requires FilledUpTo(buf, cmd, data, TotalBits(|data|))
    ensures buf == Encode(cmd, data)
  {
    var bits, s := Bits(buf), Stream(cmd, data);
    forall k | 0 <= k < |bits|
      ensures bits[k] == s[k]
    {
      FilledStreamBit(buf, bits, s, cmd, data, k);
    }
    assert bits == s;
    PackOfBits(buf);
  }

  /** Each clocked bit of a completely filled buffer is the stream's bit. */
  lemma FilledStreamBit(buf: seq<bv8>, bits: seq<bool>, s: seq<bool>, cmd: bv8, data: seq<bv8>, k: nat)
    requires FilledUpTo(buf, cmd, data, TotalBits(|data|)) && IsStream(s, cmd, data)
    requires bits == Bits(buf) && |s| == |bits| && k < |bits|
    ensures bits[k] == s[k]
  {
    var j, q := k / 8, k % 8;
    assert k == 8 * j + q;
    ByteBit(buf, j, q);
    FilledBit(buf, cmd, data, TotalBits(|data|), j, q);
  }

  /** The bounds guard `byte_index + 1 < total_bytes` holds for every word. */
  lemma GuardHolds(n: nat, w: nat)
    requires w <= n
    ensures 9 * w / 8 + 1 < TotalBytes(n)
  {
  }

  /** The zero-filled buffer is filled up to bit 0. */
  lemma ZeroFilled(buf: seq<bv8>, cmd: bv8, data: seq<bv8>)
    requires forall j | 0 <= j < |buf| :: buf[j] == 0
    ensures FilledUpTo(buf, cmd, data, 0)
  {
    forall j, q | 0 <= j < |buf| && 0 <= q < 8
      ensures !BitOf(buf[j], q)
    {
      BitOfZero(q);
    }
  }

  /** The body of the data loop of `ssd1322_cmd`: ORs one data word into `txBuf`, its flag at bit `bitIndex` of byte `byteIndex`. */
  method PutDataWord(txBuf: array<bv8>, totalBytes: nat, byteIndex: nat, bitIndex: nat, x: bv8)
    requires totalBytes == txBuf.Length && byteIndex < totalBytes && bitIndex < 8
    modifies txBuf
    ensures txBuf[..] == WriteData(old(txBuf[..]), byteIndex, bitIndex, x)
  {
    txBuf[byteIndex] := Or(txBuf[byteIndex], 1 << (7 - bitIndex));
    if bitIndex < 7 {
      txBuf[byteIndex] := Or(txBuf[byteIndex], x >> (bitIndex + 1));
      if byteIndex + 1 < totalBytes {
        txBuf[byteIndex + 1] := Or(txBuf[byteIndex + 1], x << (7 - bitIndex));
      }
    } else {
      if byteIndex + 1 < totalBytes {
        txBuf[byteIndex + 1] := Or(txBuf[byteIndex + 1], x);
      }
    }
  }

  /**
    Fills the zeroed `txBuf` as `ssd1322_cmd` does: the command at bit offset 1,
    then one flag-and-byte word per data byte, advancing `bitOffset` by nine.
   */
  method FillCommand(txBuf: array<bv8>, totalBytes: nat, cmd: bv8, data: seq<bv8>)
    requires totalBytes == txBuf.Length == TotalBytes(|data|)
    requires forall j | 0 <= j < txBuf.Length :: txBuf[j] == 0
    modifies txBuf
    ensures txBuf[..] == Encode(cmd, data)
  {
    TotalBytesBounds(|data|);
    assert txBuf[..] == seq(TotalBytes(|data|), _ => 0);

    // The command word: flag 0 at bit 0, the command in bits 1..8.
    var bitOffset := 1;
    txBuf[0] := Or(txBuf[0], cmd >> bitOffset);
    txBuf[1] := Or(txBuf[1], cmd << (8 - bitOffset));
    bitOffset := bitOffset + 8;

    PutDataWords(txBuf, totalBytes, bitOffset, cmd, data);
    WrittenIsEncode(cmd, data);
  }

  /** The data loop of `ssd1322_cmd`: one flag-and-byte word per data byte, `bitOffset` advancing by nine. */
  method PutDataWords(txBuf: array<bv8>, totalBytes: nat, bitOffset0: nat, cmd: bv8, data: seq<bv8>)
    requires totalBytes == txBuf.Length == TotalBytes(|data|) && bitOffset0 == 9
    requires txBuf[..] == Written(cmd, data, 0)
    modifies txBuf
    ensures txBuf[..] == Written(cmd, data, |data|)
  {
    var bitOffset := bitOffset0;
    for i := 0 to |data|
      invariant txBuf[..] == Written(cmd, data, i)
      invariant bitOffset == 9 * (i + 1)
    {
      var byteIndex := bitOffset / 8;
      var bitIndex := bitOffset % 8;
      WrittenStep(cmd, data, i, bitOffset);
      PutDataWord(txBuf, totalBytes, byteIndex, bitIndex, data[i]);
      bitOffset := bitOffset + 9;
    }
  }
}
