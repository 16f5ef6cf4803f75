/**
  The image packer `png-to-128x64.py`: a 128x64 8-bit grey image becomes the
  4096-byte framebuffer image the driver displays, two 4-bit pixels per byte,
  rows top to bottom, the left pixel of each pair in the upper nibble.  The
  image is given as rows of grey values, `img[y][x]` being `getpixel((x, y))`.
 */
module PngPack {
  import opened Ssd1322Defs
  import FrameConvert
  import opened Wrappers

  /** `process_pixel`: an 8-bit grey level to a 4-bit one, by floor division by 16. */
  function ProcessPixel(v: nat): (r: nat)
    ensures 16 * r <= v < 16 * r + 16
    ensures v < 256 ==> r < 16
  {
    v / 16
  }

  /** Brighter input never gives a darker output. */
  lemma ProcessPixelMonotone(a: nat, b: nat)
    requires a <= b
    ensures ProcessPixel(a) <= ProcessPixel(b)
  {
  }

  /** A 4-bit value as a byte. */
  function Nibble(n: nat): (r: bv8)
    requires n < 16
    ensures r as int == n
  {
    n as bv8
  }

  /** `(a << 4) | b` on bytes: `a` lands in the upper nibble, `b` in the lower. */
  function ShiftOr(a: bv8, b: bv8): (r: bv8)
    requires a < 16 && b < 16
    ensures FrameConvert.Upper(r) == a && FrameConvert.Lower(r) == b
  {
    (a << 4) | b
  }

  /**
    `(first_pixel << 4) | second_pixel`: two 4-bit pixels in one byte, the
    first in the upper nibble, and both can be read back out.
   */
  function CombineByte(first: nat, second: nat): (r: bv8)
    requires first < 16 && second < 16
    ensures FrameConvert.Upper(r) as int == first && FrameConvert.Lower(r) as int == second
    ensures r as int == 16 * first + second
  {
    ShiftOr(Nibble(first), Nibble(second))
  }

  /** A 128x64 image of 8-bit grey levels, as `Image.resize((128, 64))` in mode 'L' leaves it. */
  predicate IsImage(img: seq<seq<nat>>)
  {
    && |img| == 64
    && (forall y | 0 <= y < 64 :: |img[y]| == 128)
    && (forall y, x | 0 <= y < 64 && 0 <= x < 128 :: img[y][x] < 256)
  }

  /** The byte for the pixel pair starting at column `x` (even) of row `y`. */
  function PairByte(img: seq<seq<nat>>, y: nat, x: nat): bv8
    requires IsImage(img) && y < 64 && x + 1 < 128
  {
    CombineByte(ProcessPixel(img[y][x]), ProcessPixel(img[y][x + 1]))
  }

  /** The packed image: byte `64y + j` holds the pixels `(2j, y)` and `(2j + 1, y)`. */
  function PackedImage(img: seq<seq<nat>>): (r: seq<bv8>)
    requires IsImage(img)
    ensures |r| == 4096
  {
    seq(4096, k requires 0 <= k < 4096 => PairByte(img, k / 64, 2 * (k % 64)))
  }

  /** Where the pixels `(x, y)` and `(x + 1, y)` end up, for even `x`. */
  lemma PackedAt(img: seq<seq<nat>>, y: nat, x: nat)
    requires IsImage(img) && y < 64 && x < 128 && x % 2 == 0
    ensures y * 64 + x / 2 < 4096
    ensures PackedImage(img)[y * 64 + x / 2] == PairByte(img, y, x)
  {
    var k := y * 64 + x / 2;
    assert k / 64 == y && 2 * (k % 64) == x;
  }

  /**
    The nested loops of `convert_image_to_4bit_grayscale`: rows `y` in
    `range(64)`, pairs `x` in `range(0, 128, 2)`, one combined byte appended
    per pair.
   */
  method PackImage(img: seq<seq<nat>>) returns (bitmap: seq<bv8>)
    requires IsImage(img)
    ensures bitmap == PackedImage(img)
  {
    bitmap := [];
    var y := 0;
    while y < 64
      invariant 0 <= y <= 64
      invariant bitmap == PackedImage(img)[..y * 64]
    {
      var x := 0;
      ghost var pair := 0;
      while x < 128
        invariant 0 <= x <= 128 && x == 2 * pair
        invariant bitmap == PackedImage(img)[..y * 64 + pair]
      {
        var firstPixel := ProcessPixel(img[y][x]);
        var secondPixel := ProcessPixel(img[y][x + 1]);
        var combinedByte := CombineByte(firstPixel, secondPixel);
        PackedAt(img, y, x);
        AppendNext(PackedImage(img), bitmap, y * 64 + pair, combinedByte);
        bitmap := bitmap + [combinedByte];
        x := x + 2;
        pair := pair + 1;
      }
      y := y + 1;
    }
  }

  /** Appending the next byte of `want` extends the prefix by one. */
  lemma AppendNext(want: seq<bv8>, done: seq<bv8>, k: nat, b: bv8)
    requires k < |want| && done == want[..k] && b == want[k]
    ensures done + [b] == want[..k + 1]
  {
  }

  /** Index of the last `c` in `s`, or -1: Python's `str.rfind`. */
  function RFind(s: string, c: char): (r: int)
    ensures -1 <= r < |s|
    ensures r >= 0 ==> s[r] == c
    ensures forall i | r < i < |s| :: s[i] != c
  {
    if |s| == 0 then -1
    else if s[|s| - 1] == c then |s| - 1
    else RFind(s[..|s| - 1], c)
  }

  /**
    `os.path.splitext` on POSIX: the extension is the last `.` of the final
    path component and what follows, unless everything before that dot in
    the component is dots too.
   */
  function SplitExt(p: string): (string, string)
  {
    var sepIndex := RFind(p, '/');
    var dotIndex := RFind(p, '.');
    if dotIndex > sepIndex && exists i | sepIndex + 1 <= i < dotIndex :: p[i] != '.' then
      (p[..dotIndex], p[dotIndex..])
    else
      (p, "")
  }

  /**
    `root + ext` splits as an extension: `ext` is a dot followed by neither
    dots nor separators, and the final component of `root` has a character
    that is not a dot.
   */
  predicate ExtensionSplit(root: string, ext: string)
  {
    && |ext| >= 1 && ext[0] == '.'
    && (forall i | 1 <= i < |ext| :: ext[i] != '.' && ext[i] != '/')
    && exists i | 0 <= i < |root| :: root[i] != '.' && root[i] != '/' && forall j | i < j < |root| :: root[j] != '/'
  }

  /** The split loses nothing, and a non-empty extension is an extension split. */
  lemma SplitExtParts(p: string)
    ensures SplitExt(p).0 + SplitExt(p).1 == p
    ensures SplitExt(p).1 == [] || ExtensionSplit(SplitExt(p).0, SplitExt(p).1)
  {
    var sepIndex := RFind(p, '/');
    var dotIndex := RFind(p, '.');
    if dotIndex > sepIndex && exists i | sepIndex + 1 <= i < dotIndex :: p[i] != '.' {
      var root, ext := p[..dotIndex], p[dotIndex..];
      forall i | 1 <= i < |ext|
        ensures ext[i] != '.' && ext[i] != '/'
      {
        assert ext[i] == p[dotIndex + i];
      }
      var i :| sepIndex + 1 <= i < dotIndex && p[i] != '.';
      assert root[i] == p[i];
      forall j | i < j < |root|
        ensures root[j] != '/'
      {
        assert root[j] == p[j];
      }
    } else {
      assert p + "" == p;
    }
  }

  /** Conversely, an extension split is the split `splitext` finds. */
  lemma SplitExtOf(root: string, ext: string)
    requires ExtensionSplit(root, ext)
    ensures SplitExt(root + ext) == (root, ext)
  {
    var p := root + ext;
    var i :| 0 <= i < |root| && root[i] != '.' && root[i] != '/' && forall j | i < j < |root| :: root[j] != '/';
    assert p[|root|] == '.';
    forall k | |root| < k < |p|
      ensures p[k] != '.' && p[k] != '/'
    {
      assert p[k] == ext[k - |root|];
    }
    var dotIndex := RFind(p, '.');
    assert dotIndex == |root|;
    forall k | i <= k < |p|
      ensures p[k] != '/'
    {
      if k < |root| {
        assert p[k] == root[k];
      }
    }
    var sepIndex := RFind(p, '/');
    assert sepIndex < i && p[i] == root[i];
    assert p[..dotIndex] == root && p[dotIndex..] == ext;
  }

  /** The output name used when none is given: the input path without its extension, plus `-4bit.bin`. */
  function DefaultOutputPath(imagePath: string): (r: string)
  {
    SplitExt(imagePath).0 + "-4bit.bin"
  }

  /** The default name ends in `-4bit.bin` and starts with the input path up to its extension. */
  lemma DefaultOutputPathShape(imagePath: string)
    ensures var r := DefaultOutputPath(imagePath);
      && |r| >= 9 && r[|r| - 9..] == "-4bit.bin"
      && imagePath == r[..|r| - 9] + SplitExt(imagePath).1
  {
    SplitExtParts(imagePath);
    var r := DefaultOutputPath(imagePath);
    assert r[..|r| - 9] == SplitExt(imagePath).0;
  }

  /** What `convert_image_to_4bit_grayscale` does: save the bytes under a path, or report a wrong length. */
  datatype Outcome = Saved(path: string, bytes: seq<bv8>) | LengthError(got: int)

  /**
    `convert_image_to_4bit_grayscale` after the image has been loaded: pack
    it, check the length, pick the output path.  The length check never
    fails, so the packed image is always saved.
   */
  method ConvertImage(imagePath: string, outputPath: Option<string>, img: seq<seq<nat>>) returns (r: Outcome)
    requires IsImage(img)
    ensures r.Saved? && r.bytes == PackedImage(img) && |r.bytes| == SmemLen
    ensures r.path == if outputPath.Some? then outputPath.value else DefaultOutputPath(imagePath)
  {
    var bitmapData := PackImage(img);
    if |bitmapData| != 128 * 64 / 2 {
      assert false;
      r := LengthError(|bitmapData|);
    } else {
      var path := if outputPath.Some? then outputPath.value else DefaultOutputPath(imagePath);
      r := Saved(path, bitmapData);
    }
  }

  /**
    The image as the panel shows it: after the driver expands the packed
    image, device byte `128y + x` is pixel `(x, y)` reduced to 4 bits and
    written into both nibbles, `0x11 * (img[y][x] // 16)`.
   */
  lemma PackThenExpand(img: seq<seq<nat>>, y: nat, x: nat)
    requires IsImage(img) && y < 64 && x < 128
    ensures y * 128 + x < |FrameConvert.Expand(PackedImage(img))|
    ensures FrameConvert.Expand(PackedImage(img))[y * 128 + x] as int == 0x11 * (img[y][x] / 16)
  {
    var x0 := x - x % 2;
    var k := y * 64 + x0 / 2;
    PackedAt(img, y, x0);
    var first, second := ProcessPixel(img[y][x0]), ProcessPixel(img[y][x0 + 1]);
    ExpandedPair(PackedImage(img), k, first, second);
    if x % 2 == 0 {
      assert x0 == x;
    } else {
      assert x0 + 1 == x;
    }
    PixelOfPair(FrameConvert.Expand(PackedImage(img)), k, y, x, first, second, ProcessPixel(img[y][x]));
  }

  /** Device byte `128y + x` is the first or second byte of the pair for framebuffer byte `64y + x / 2`. */
  lemma PixelOfPair(e: seq<bv8>, k: nat, y: nat, x: nat, first: nat, second: nat, v: nat)
    requires x < 128 && k == y * 64 + (x - x % 2) / 2 && 2 * k + 1 < |e|
    requires e[2 * k] as int == 0x11 * first && e[2 * k + 1] as int == 0x11 * second
    requires v == if x % 2 == 0 then first else second
    ensures y * 128 + x < |e| && e[y * 128 + x] as int == 0x11 * v
  {
    if x % 2 == 0 {
      assert 2 * k == y * 128 + x;
    } else {
      assert 2 * k + 1 == y * 128 + x;
    }
  }

  /** The device bytes of a framebuffer byte holding the pixels `first` and `second`. */
  lemma ExpandedPair(fb: seq<bv8>, k: nat, first: nat, second: nat)
    requires k < |fb| && first < 16 && second < 16
    requires fb[k] as int == 16 * first + second
    ensures 2 * k + 1 < |FrameConvert.Expand(fb)|
    ensures FrameConvert.Expand(fb)[2 * k] as int == 0x11 * first
    ensures FrameConvert.Expand(fb)[2 * k + 1] as int == 0x11 * second
  {
    FrameConvert.ExpandValues(fb, k);
    SplitNibbles(fb[k] as int, first, second);
  }

  /** `16 * first + second` splits back into `first` and `second`. */
  lemma SplitNibbles(v: int, first: nat, second: nat)
    requires first < 16 && second < 16 && v == 16 * first + second
    ensures v / 16 == first && v % 16 == second
  {
  }
}
