/** The GIF89a encoder of the worker (gif.worker.js:650-975): a small state
    machine over the frame settings (`repeat`, `delay`, `dispose`,
    `transparent`, `transIndex`), the first-frame flag and the output sink.
    Each frame is stripped of its alpha channel, quantised to a 256-colour
    palette by NeuQuant, mapped to palette indices and written as the
    blocks of section 18 onwards of the GIF89a specification: the Logical
    Screen Descriptor, the colour tables, the NETSCAPE2.0 application
    extension, the Graphic Control Extension, the Image Descriptor, the LZW
    image data and the trailer. No method writes the "GIF89a" header. */
module GifEncoding {
  import opened Common
  import opened Bitwise
  import opened ByteArrays
  import opened GifLzw
  import opened LzwEncoding
  import opened NeuQuantPalette

  /** `~~x` on an integer: its 32-bit two's-complement reading. */
  function ToInt32(x: int): (r: int)
    ensures -0x8000_0000 <= r < 0x8000_0000
    ensures (r - x) % 0x1_0000_0000 == 0
  {
    (x + 0x8000_0000) % 0x1_0000_0000 - 0x8000_0000
  }

  /** `Math.round(milliseconds / 10)` for an integral number of
      milliseconds: the nearest number of hundredths, halves rounded up. */
  function RoundDelay(milliseconds: int): (d: int)
    ensures 10 * d - 5 <= milliseconds < 10 * d + 5
  {
    (milliseconds + 5) / 10
  }

  /** `writeShort`: the low byte, then the next one. On a 32-bit value,
      `& 0xff` is the remainder by 256 and `>> 8` the quotient by 256
      rounded down, so any integer is written as its value modulo 2^16,
      little-endian. */
  function ShortBytes(x: int): (r: seq<Byte>)
    ensures |r| == 2 && r[0] as int + 256 * (r[1] as int) == x % 65536
  {
    ShortSplit(x);
    [x % 256, (x / 256) % 256]
  }

  lemma ShortSplit(x: int)
    ensures x % 256 + 256 * ((x / 256) % 256) == x % 65536
  {
    var q := x / 65536;
    var m := x % 65536;
    ModOfDecomposition(x / 256, 256, q, m / 256);
    ModOfDecomposition(x, 256, 256 * q + m / 256, m % 256);
  }

  /** A short below 2^16 is read back from its two bytes. */
  lemma ShortRoundTrip(x: int)
    requires 0 <= x < 65536
    ensures ShortBytes(x)[0] as int + 256 * (ShortBytes(x)[1] as int) == x
  {
  }

  /** The Logical Screen Descriptor: the screen size, the packed byte
      (global table present, colour resolution 7, not sorted, table size
      `palSize`), background index 0 and aspect ratio 0. */
  function LsdBytes(width: int, height: int, palSize: nat): seq<Byte>
  {
    ShortBytes(width) + ShortBytes(height) + [ToUint8(Or(Or(Or(0x80, 0x70), 0x00), palSize)), 0, 0]
  }

  /** With the table size 7 the encoder always uses, the descriptor is
      seven bytes with the packed byte 0xF7. */
  lemma LsdLayout(width: int, height: int)
    ensures |LsdBytes(width, height, 7)| == 7
    ensures LsdBytes(width, height, 7) == ShortBytes(width) + ShortBytes(height) + [0xF7, 0, 0]
  {
    Pow2Facts();
    assert Pow2(7) == 128;
    OrDisjointHigh(1, 0x70, 7);
    OrDisjointHigh(15, 7, 4);
  }

  const AppId := "NETSCAPE2.0"

  /** The NETSCAPE2.0 application extension carrying the loop count. */
  function NetscapeBytes(repeat: int): seq<Byte>
  {
    [0x21, 0xFF, 11]
    + seq(|AppId|, i requires 0 <= i < |AppId| => ToUint8(AppId[i] as int))
    + [3, 1] + ShortBytes(repeat) + [0]
  }

  /** The extension is 19 bytes: the introducer and label, the 11-byte
      application identifier and code, a 3-byte sub-block with id 1 and the
      little-endian loop count, and the terminator. */
  lemma NetscapeLayout(repeat: int)
    ensures |NetscapeBytes(repeat)| == 19
    ensures NetscapeBytes(repeat)[..3] == [0x21, 0xFF, 11]
    ensures NetscapeBytes(repeat)[3..14] == [78, 69, 84, 83, 67, 65, 80, 69, 50, 46, 48]
    ensures NetscapeBytes(repeat)[14..] == [3, 1] + ShortBytes(repeat) + [0]
  {
    var id := seq(|AppId|, i requires 0 <= i < |AppId| => ToUint8(AppId[i] as int));
    assert id == [78, 69, 84, 83, 67, 65, 80, 69, 50, 46, 48];
    assert NetscapeBytes(repeat) == [0x21, 0xFF, 11] + id + ([3, 1] + ShortBytes(repeat) + [0]);
  }

  /** The disposal method `writeGraphicCtrlExt` writes: the user's code
      when one was set, otherwise 2 (restore to background) with a
      transparent colour and 0 without. */
  function Disposal(transparent: Option<int>, dispose: int): nat
  {
    if dispose >= 0 then And(dispose, 7)
    else if transparent.None? then 0 else 2
  }

  function TransparencyFlag(transparent: Option<int>): nat
  {
    if transparent.None? then 0 else 1
  }

  /** The Graphic Control Extension: introducer, label, block size 4, the
      packed byte, the delay, the transparent index and the terminator. */
  function GceBytes(transparent: Option<int>, dispose: int, delay: int, transIndex: int): seq<Byte>
  {
    var packed := Or(Or(Or(0, Shl(Disposal(transparent, dispose), 2)), 0), TransparencyFlag(transparent));
    [0x21, 0xF9, 4, ToUint8(packed)] + ShortBytes(delay) + [ToUint8(transIndex), 0]
  }

  /** The extension is 8 bytes, and its packed byte holds the disposal
      method in bits 2-4 (`dispose & 7` when set, otherwise 0 or 2), no
      user-input flag, and the transparency flag in bit 0. */
  lemma GceLayout(transparent: Option<int>, dispose: int, delay: int, transIndex: int)
    ensures |GceBytes(transparent, dispose, delay, transIndex)| == 8
    ensures GceBytes(transparent, dispose, delay, transIndex)[3]
      == 4 * (if dispose >= 0 then dispose % 8 else if transparent.None? then 0 else 2)
         + (if transparent.None? then 0 else 1)
    ensures GceBytes(transparent, dispose, delay, transIndex)[4..6] == ShortBytes(delay)
    ensures GceBytes(transparent, dispose, delay, transIndex)[6] == ToUint8(transIndex)
  {
    var disp := Disposal(transparent, dispose);
    if dispose >= 0 {
      AndLowBits(dispose, 3);
      Pow2Facts();
      assert Pow2(3) == 8;
    }
    ShlIsMul(disp, 2);
    assert Pow2(2) == 4;
    PackedFlags(disp, TransparencyFlag(transparent));
  }

  /** `(disp << 2) | transp` with a one-bit `transp` is their sum. */
  lemma PackedFlags(disp: nat, transp: nat)
    requires transp <= 1
    ensures Or(Or(Or(0, disp * 4), 0), transp) == disp * 4 + transp
  {
    if transp == 1 && disp != 0 {
      assert Or(disp * 4, 1) == 2 * Or(disp * 2, 0) + 1;
    }
  }

  /** The Image Descriptor: separator, position (0, 0), the frame size and
      the packed byte: 0 on the first frame, where the global table
      applies, and afterwards a local table of size `palSize`. */
  function ImageDescBytes(width: int, height: int, firstFrame: bool, palSize: nat): seq<Byte>
  {
    [0x2C] + ShortBytes(0) + ShortBytes(0) + ShortBytes(width) + ShortBytes(height)
    + [if firstFrame then 0 else ToUint8(Or(Or(Or(Or(0x80, 0), 0), 0), palSize))]
  }

  lemma ImageDescLayout(width: int, height: int, firstFrame: bool)
    ensures |ImageDescBytes(width, height, firstFrame, 7)| == 10
    ensures ImageDescBytes(width, height, firstFrame, 7)
      == [0x2C, 0, 0, 0, 0] + ShortBytes(width) + ShortBytes(height) + [if firstFrame then 0 else 0x87]
  {
    Pow2Facts();
    assert Pow2(7) == 128;
    OrDisjointHigh(1, 7, 7);
  }

  /** A colour table: the palette's values as bytes, then zeros up to 768
      bytes. */
  function PaletteBytes(colorTab: seq<int>): seq<Byte>
  {
    BytesWritten(colorTab, 0, 0) + seq(Max(0, 3 * 256 - |colorTab|), _ => 0)
  }

  /** A palette of at most 768 byte values is written as itself followed by
      zeros, 768 bytes in all. */
  lemma PaletteLayout(colorTab: seq<int>)
    requires |colorTab| <= 768 && forall k :: 0 <= k < |colorTab| ==> 0 <= colorTab[k] < 256
    ensures |PaletteBytes(colorTab)| == 768
    ensures PaletteBytes(colorTab)[..|colorTab|] == colorTab
    ensures forall k :: |colorTab| <= k < 768 ==> PaletteBytes(colorTab)[k] == 0
  {
    WholeArrayWritten(colorTab);
  }

  /** `pixels` after `getImagePixels`: the red, green and blue bytes of the
      first `n` RGBA pixels of `image`, alpha dropped. Bytes past the end of
      `image` read as 0. */
  function StripAlpha(image: seq<int>, n: nat): (rgb: seq<Byte>)
    ensures |rgb| == 3 * n
  {
    if n == 0 then []
    else
      var p := 4 * (n - 1);
      StripAlpha(image, n - 1) + [ToUint8(ElemOrZero(image, p)), ToUint8(ElemOrZero(image, p + 1)), ToUint8(ElemOrZero(image, p + 2))]
  }

  /** Channel `c` of pixel `p` is byte `4 p + c` of the image. */
  lemma {:induction false} StripAlphaChannel(image: seq<int>, n: nat, p: int, c: int)
    requires 0 <= p < n && 0 <= c < 3
    ensures StripAlpha(image, n)[3 * p + c] == ToUint8(ElemOrZero(image, 4 * p + c))
  {
    if p < n - 1 {
      StripAlphaChannel(image, n - 1, p, c);
    }
  }

  /** The squared RGB distance of colour `c` (0xRRGGBB) to palette entry
      `k`, as `findClosest` computes it. */
  function SqDist(tab: seq<int>, k: int, c: int): int
  {
    var dr := (c / 0x10000) % 256 - ToUint8(ElemOrZero(tab, 3 * k));
    var dg := (c / 0x100) % 256 - ToUint8(ElemOrZero(tab, 3 * k + 1));
    var db := c % 256 - ToUint8(ElemOrZero(tab, 3 * k + 2));
    dr * dr + dg * dg + db * db
  }

  /** The entries `findClosest` visits: one for each start `i = 3 k` below
      the table's length. */
  function EntryCount(tab: seq<int>): nat
  {
    (|tab| + 2) / 3
  }

  /** `pos` is the answer `findClosest` promises: the first used entry of
      least squared distance to `c` when some used entry is nearer than
      the initial bound 2^24, and 0 otherwise. */
  ghost predicate ClosestUsed(tab: seq<int>, used: set<int>, c: int, pos: int)
  {
    if exists k :: 0 <= k < EntryCount(tab) && k in used && SqDist(tab, k, c) < 0x100_0000 then
      && 0 <= pos < EntryCount(tab) && pos in used
      && (forall k :: 0 <= k < EntryCount(tab) && k in used ==> SqDist(tab, pos, c) <= SqDist(tab, k, c))
      && (forall k :: 0 <= k < pos && k in used ==> SqDist(tab, pos, c) < SqDist(tab, k, c))
    else pos == 0
  }

  /** Every squared distance between byte colours is below 2^24, so when
      some entry is used the answer is a nearest used entry. */
  lemma ClosestIsNearestUsed(tab: seq<int>, used: set<int>, c: int, pos: int, k: int)
    requires ClosestUsed(tab, used, c, pos) && 0 <= k < EntryCount(tab) && k in used
    ensures pos in used && 0 <= pos < EntryCount(tab)
    ensures forall m :: 0 <= m < EntryCount(tab) && m in used ==> SqDist(tab, pos, c) <= SqDist(tab, m, c)
  {
    SqDistBound(tab, k, c);
  }

  lemma SqDistBound(tab: seq<int>, k: int, c: int)
    ensures 0 <= SqDist(tab, k, c) <= 3 * 255 * 255
  {
    var dr := (c / 0x10000) % 256 - ToUint8(ElemOrZero(tab, 3 * k));
    var dg := (c / 0x100) % 256 - ToUint8(ElemOrZero(tab, 3 * k + 1));
    var db := c % 256 - ToUint8(ElemOrZero(tab, 3 * k + 2));
    SquareBound(dr);
    SquareBound(dg);
    SquareBound(db);
  }

  lemma SquareBound(d: int)
    requires -255 <= d <= 255
    ensures 0 <= d * d <= 255 * 255
  {
    var a := if d < 0 then -d else d;
    assert d * d == a * a;
    MulMonotone(a, 255, a);
    MulMonotone(a, 255, 255);
  }

  /** Where `findClosest`'s loop stands after the first `n` entries. */
  ghost predicate BestSoFar(tab: seq<int>, used: set<int>, c: int, n: int, pos: int, dmin: int)
  {
    || (dmin == 0x100_0000 && pos == 0
        && forall k :: 0 <= k < n && k in used ==> SqDist(tab, k, c) >= 0x100_0000)
    || (&& 0 <= pos < n && pos in used && dmin == SqDist(tab, pos, c) < 0x100_0000
        && (forall k :: 0 <= k < n && k in used ==> dmin <= SqDist(tab, k, c))
        && (forall k :: 0 <= k < pos && k in used ==> dmin < SqDist(tab, k, c)))
  }

  /** One step of `findClosest`'s search: entry `n` replaces the best so
      far exactly when it is used and strictly closer. */
  lemma BestStep(tab: seq<int>, used: set<int>, c: int, n: nat, pos: int, dmin: int, pos': int, dmin': int)
    requires BestSoFar(tab, used, c, n, pos, dmin)
    requires n in used && SqDist(tab, n, c) < dmin ==> pos' == n && dmin' == SqDist(tab, n, c)
    requires !(n in used && SqDist(tab, n, c) < dmin) ==> pos' == pos && dmin' == dmin
    ensures BestSoFar(tab, used, c, n + 1, pos', dmin')
  {
  }

  /** An index that is not a whole number names no array element. */
  function Used(used: set<int>, index: real): bool
  {
    index.Floor as real == index && index.Floor in used
  }

  /** The index `findClosest` computes as written, `i / 3` with `i` at the
      third byte `3 k + 2` of entry `k`, is `k + 2/3` and never whole. */
  lemma FractionalIndex(k: int)
    ensures ((3 * k + 2) as real / 3.0).Floor == k
    ensures ((3 * k + 2) as real / 3.0).Floor as real != (3 * k + 2) as real / 3.0
  {
    assert (3 * k + 2) as real / 3.0 == k as real + 2.0 / 3.0;
  }

  /** Concrete witness: with entry 0 black, entry 1 white and only entry 1
      in use, the colour white must be matched to entry 1, not 0. */
  lemma WhiteMatchesEntryOne()
    ensures ClosestUsed([0, 0, 0, 255, 255, 255], {1}, 0xFF_FFFF, 1)
    ensures !ClosestUsed([0, 0, 0, 255, 255, 255], {1}, 0xFF_FFFF, 0)
  {
    var tab := [0, 0, 0, 255, 255, 255];
    assert SqDist(tab, 1, 0xFF_FFFF) == 0;
  }

  class GIFEncoder {
    const width: int
    const height: int
    var transparent: Option<int>
    var transIndex: int
    var repeat: int
    var delay: int
    var image: seq<int>
    var pixels: seq<Byte>
    var indexedPixels: seq<int>
    var colorDepth: int
    var colorTab: Option<seq<int>>
    /** The palette entries mapped to so far, over every frame. */
    var usedEntry: set<int>
    var palSize: nat
    var dispose: int
    var firstFrame: bool
    var sample: int
    const out: ByteArray

    ghost predicate Valid()
      reads this, out, out.Repr
    {
      out.Valid() && this !in out.Repr
    }

    constructor (w: int, h: int)
      ensures Valid() && fresh(out.Repr) && out.Contents == []
      ensures width == ToInt32(w) && height == ToInt32(h)
      ensures transparent == None && transIndex == 0 && repeat == -1 && delay == 0
      ensures image == [] && pixels == [] && indexedPixels == [] && colorDepth == 0 && colorTab == None
      ensures usedEntry == {} && palSize == 7 && dispose == -1 && firstFrame && sample == 10
    {
      width := ToInt32(w);
      height := ToInt32(h);
      transparent := None;
      transIndex := 0;
      repeat := -1;
      delay := 0;
      image := [];
      pixels := [];
      indexedPixels := [];
      colorDepth := 0;
      colorTab := None;
      usedEntry := {};
      palSize := 7;
      dispose := -1;
      firstFrame := true;
      sample := 10;
      out := new ByteArray();
    }

    method SetDelay(milliseconds: int)
      modifies this`delay
      ensures delay == RoundDelay(milliseconds)
    {
      delay := (milliseconds + 5) / 10;
    }

    /** A negative code leaves the disposal method as it was. */
    method SetDispose(disposalCode: int)
      modifies this`dispose
      ensures dispose == if disposalCode >= 0 then disposalCode else old(dispose)
    {
      if disposalCode >= 0 {
        dispose := disposalCode;
      }
    }

    method SetRepeat(r: int)
      modifies this`repeat
      ensures repeat == r
    {
      repeat := r;
    }

    method SetTransparent(color: Option<int>)
      modifies this`transparent
      ensures transparent == color
    {
      transparent := color;
    }

    /** The sampling factor is at least 1. */
    method SetQuality(quality: int)
      modifies this`sample
      ensures sample == Max(1, quality) && sample >= 1
    {
      var q := quality;
      if q < 1 {
        q := 1;
      }
      sample := q;
    }

    method WriteShort(pValue: int)
      requires Valid()
      modifies out.Repr
      ensures Valid() && fresh(out.Repr - old(out.Repr))
      ensures out.Contents == old(out.Contents) + ShortBytes(pValue)
    {
      out.WriteByte(pValue % 256);
      out.WriteByte((pValue / 256) % 256);
    }

    method WriteLSD()
      requires Valid()
      modifies out.Repr
      ensures Valid() && fresh(out.Repr - old(out.Repr))
      ensures out.Contents == old(out.Contents) + LsdBytes(width, height, palSize)
    {
      WriteShort(width);
      WriteShort(height);
      out.WriteByte(Or(Or(Or(0x80, 0x70), 0x00), palSize));
      out.WriteByte(0);
      out.WriteByte(0);
    }

    method WriteNetscapeExt()
      requires Valid()
      modifies out.Repr
      ensures Valid() && fresh(out.Repr - old(out.Repr))
      ensures out.Contents == old(out.Contents) + NetscapeBytes(repeat)
    {
      out.WriteByte(0x21);
      out.WriteByte(0xFF);
      out.WriteByte(11);
      out.WriteUTFBytes(AppId);
      out.WriteByte(3);
      out.WriteByte(1);
      WriteShort(repeat);
      out.WriteByte(0);
    }

    method WriteGraphicCtrlExt()
      requires Valid()
      modifies out.Repr
      ensures Valid() && fresh(out.Repr - old(out.Repr))
      ensures out.Contents == old(out.Contents) + GceBytes(transparent, dispose, delay, transIndex)
    {
      out.WriteByte(0x21);
      out.WriteByte(0xF9);
      out.WriteByte(4);
      ghost var introduced := out.Contents;
      var transp, disp;
      if transparent.None? {
        transp, disp := 0, 0;
      } else {
        transp, disp := 1, 2;
      }
      if dispose >= 0 {
        disp := And(dispose, 7);
      }
      assert disp == Disposal(transparent, dispose) && transp == TransparencyFlag(transparent);
      disp := Shl(disp, 2);
      var packed := Or(Or(Or(0, disp), 0), transp);
      out.WriteByte(packed);
      WriteShort(delay);
      out.WriteByte(transIndex);
      out.WriteByte(0);
      assert out.Contents == introduced + [ToUint8(packed)] + ShortBytes(delay) + [ToUint8(transIndex), 0];
    }

    method WriteImageDesc()
      requires Valid()
      modifies out.Repr
      ensures Valid() && fresh(out.Repr - old(out.Repr))
      ensures out.Contents == old(out.Contents) + ImageDescBytes(width, height, firstFrame, palSize)
    {
      out.WriteByte(0x2C);
      WriteShort(0);
      WriteShort(0);
      WriteShort(width);
      WriteShort(height);
      if firstFrame {
        out.WriteByte(0);
      } else {
        out.WriteByte(Or(Or(Or(Or(0x80, 0), 0), 0), palSize));
      }
    }

    /** The source reads `colorTab.length`, so a table must exist. */
    method WritePalette()
      requires Valid() && colorTab.Some?
      modifies out.Repr
      ensures Valid() && fresh(out.Repr - old(out.Repr))
      ensures out.Contents == old(out.Contents) + PaletteBytes(colorTab.value)
    {
      out.WriteBytes(colorTab.value, 0, 0);
      var n := 3 * 256 - |colorTab.value|;
      for i := 0 to Max(0, n)
        invariant Valid() && fresh(out.Repr - old(out.Repr))
        invariant out.Contents == old(out.Contents) + BytesWritten(colorTab.value, 0, 0) + seq(i, _ => 0)
      {
        out.WriteByte(0);
      }
    }

    /** The frame's indices go through the LZW encoder at colour depth 8;
        the bytes written are image data that decode back to them. */
    method WritePixels() returns (ghost data: seq<Byte>)
      requires Valid() && colorDepth == 8 && width * height >= 1
      modifies out.Repr
      ensures Valid() && fresh(out.Repr - old(out.Repr))
      ensures out.Contents == old(out.Contents) + data
      ensures |data| >= 2 && data[0] == 8 && data[|data| - 1] == 0
      ensures DecodeImageData(data) == Some((PixelStream(indexedPixels, width * height), []))
    {
      var enc := new LZWEncoder(width, height, indexedPixels, colorDepth);
      Pow2Facts();
      assert enc.PixelsFit(8);
      enc.Encode(out);
      data := out.Contents[|old(out.Contents)|..];
    }

    /** The body of `getImagePixels`' inner loop: pixel `n` of the frame
        loses its alpha byte and its red, green and blue bytes follow the
        ones already copied. */
    method CopyPixel(px: array<Byte>, count: int, srcPos: int, ghost n: nat)
      requires count == 3 * n && srcPos == 4 * n
      requires count + 3 <= px.Length && px[..count] == StripAlpha(image, n)
      modifies px
      ensures px[..count + 3] == StripAlpha(image, n + 1)
    {
      px[count] := ToUint8(ElemOrZero(image, srcPos));
      px[count + 1] := ToUint8(ElemOrZero(image, srcPos + 1));
      px[count + 2] := ToUint8(ElemOrZero(image, srcPos + 2));
      assert px[..count + 3] == px[..count] + [px[count], px[count + 1], px[count + 2]];
    }

    /** The inner loop of `getImagePixels`: the `w` pixels of one row. */
    method CopyRow(px: array<Byte>, count: int, srcPos: int, ghost n: nat, w: nat) returns (count': int, srcPos': int)
      requires count == 3 * n && srcPos == 4 * n
      requires count + 3 * w <= px.Length && px[..count] == StripAlpha(image, n)
      modifies px
      ensures count' == count + 3 * w && srcPos' == srcPos + 4 * w
      ensures px[..count'] == StripAlpha(image, n + w)
    {
      count', srcPos' := count, srcPos;
      for j := 0 to w
        invariant count' == count + 3 * j && srcPos' == srcPos + 4 * j
        invariant px[..count'] == StripAlpha(image, n + j)
      {
        CopyPixel(px, count', srcPos', n + j);
        count' := count' + 3;
        srcPos' := srcPos' + 4;
      }
    }

    /** `getImagePixels`: the RGBA frame in `image` becomes `width *
        height` RGB triples. */
    method GetImagePixels()
      requires 0 <= width && 0 <= height
      modifies this`pixels
      ensures pixels == StripAlpha(image, width * height)
    {
      var w := width;
      var h := height;
      var px := new Byte[w * h * 3];
      RowsProduct(w, h);
      CopyRows(px, w, h);
      pixels := px[..];
    }

    /** The loops of `getImagePixels`: `h` rows of `w` pixels each. */
    method CopyRows(px: array<Byte>, w: nat, h: nat)
      requires px.Length == 3 * Rows(w, h)
      modifies px
      ensures px[..] == StripAlpha(image, Rows(w, h))
    {
      var srcPos := 0;
      var count := 0;
      ghost var n := 0;
      for i := 0 to h
        invariant n == Rows(w, i) <= Rows(w, h) && count == 3 * n && srcPos == 4 * n
        invariant px[..count] == StripAlpha(image, n)
      {
        RowsMono(w, i + 1, h);
        count, srcPos := CopyRow(px, count, srcPos, n, w);
        n := n + w;
      }
      assert px[..] == px[..count];
    }

    /** `analyzePixels`: the palette is NeuQuant's for the network learning
        yields, here the parameter `learned`; every pixel is mapped to a
        nearest palette entry in L1 distance, which is marked used; and the
        transparent colour, if any, is matched to a used entry. */
    method AnalyzePixels(learned: seq<Neuron>)
      requires |pixels| % 3 == 0
      requires |learned| == NetSize && forall k :: 0 <= k < NetSize ==> BiasedColour(learned[k])
      modifies this`colorTab, this`indexedPixels, this`pixels, this`colorDepth, this`palSize
      modifies this`usedEntry, this`transIndex
      ensures colorTab == Some(PaletteOf(learned)) && |indexedPixels| == |old(pixels)| / 3
      ensures MappedTo(PaletteOf(learned), indexedPixels, old(pixels)) == true
      ensures usedEntry == old(usedEntry) + Entries(indexedPixels)
      ensures pixels == [] && colorDepth == 8 && palSize == 7
      ensures transparent.Some? ==> ClosestUsed(PaletteOf(learned), usedEntry, transparent.value, transIndex)
      ensures transparent.None? ==> transIndex == old(transIndex)
    {
      var nq := new NeuQuant(pixels, sample);
      var tab := nq.Process(learned);
      var ip := new int[|pixels| / 3];
      MapPixels(nq, ip);
      colorTab, indexedPixels, pixels, colorDepth, palSize := Some(tab), ip[..], [], 8, 7;
      if transparent.Some? {
        transIndex := FindClosest(transparent.value);
      }
    }

    /** The mapping loop of `analyzePixels`: pixel `j` becomes the palette
        index `map` finds for its three bytes, and that entry is marked
        used. */
    method MapPixels(nq: NeuQuant, ip: array<int>)
      requires nq.Indexed(nq.learnt) == true && ip != nq.netindex && ip.Length == |pixels| / 3
      modifies ip, this`usedEntry
      ensures MappedTo(PaletteOf(nq.learnt), ip[..], pixels) == true
      ensures usedEntry == old(usedEntry) + Entries(ip[..])
    {
      var k := 0;
      for j := 0 to ip.Length
        invariant k == 3 * j
        invariant usedEntry == old(usedEntry) + Entries(ip[..j])
        invariant MappedTo(PaletteOf(nq.learnt), ip[..j], pixels) == true
      {
        assert nq.netindex[..][pixels[k + 1]] == nq.netindex[pixels[k + 1]];
        var index := nq.Map(pixels[k], pixels[k + 1], pixels[k + 2]);
        k := k + 3;
        usedEntry := usedEntry + {index};
        ip[j] := ToUint8(index);
        assert ip[..j + 1] == ip[..j] + [index];
        EntriesSnoc(ip[..j], index);
        MappedSnoc(PaletteOf(nq.learnt), ip[..j], pixels, index);
      }
      assert ip[..] == ip[..ip.Length];
    }

    /** `findClosest` with each entry's own number as its index, the
        evident intent: the first used entry of least squared RGB distance
        to `c`, or 0 when none is used; -1 without a table. */
    method FindClosest(c: int) returns (minpos: int)
      ensures colorTab.None? ==> minpos == -1
      ensures colorTab.Some? ==> ClosestUsed(colorTab.value, usedEntry, c, minpos)
    {
      if colorTab.None? {
        return -1;
      }
      var tab := colorTab.value;
      var r := (c / 0x10000) % 256;
      var g := (c / 0x100) % 256;
      var b := c % 256;
      minpos := 0;
      var dmin := 256 * 256 * 256;
      var len := |tab|;
      var i := 0;
      ghost var k := 0;
      while i < len
        invariant i == 3 * k && k <= EntryCount(tab)
        invariant BestSoFar(tab, usedEntry, c, k, minpos, dmin) == true
      {
        var dr := r - ToUint8(ElemOrZero(tab, i));
        i := i + 1;
        var dg := g - ToUint8(ElemOrZero(tab, i));
        i := i + 1;
        var db := b - ToUint8(ElemOrZero(tab, i));
        var d := dr * dr + dg * dg + db * db;
        var index := i / 3;
        assert index == k && d == SqDist(tab, k, c);
        ghost var pos0, dmin0 := minpos, dmin;
        if index in usedEntry && d < dmin {
          dmin := d;
          minpos := index;
        }
        BestStep(tab, usedEntry, c, k, pos0, dmin0, minpos, dmin);
        i := i + 1;
        k := k + 1;
      }
      assert k == EntryCount(tab);
    }

    /** `findClosest` as written: the index is `i / 3` taken while `i` is
        at the third byte of an entry, a fraction that names no used
        entry, so the answer is 0 whenever a table exists. */
    method FindClosestAsWritten(c: int) returns (minpos: int)
      ensures colorTab.None? ==> minpos == -1
      ensures colorTab.Some? ==> minpos == 0
    {
      if colorTab.None? {
        return -1;
      }
      var tab := colorTab.value;
      var r := (c / 0x10000) % 256;
      var g := (c / 0x100) % 256;
      var b := c % 256;
      minpos := 0;
      var dmin := 256 * 256 * 256;
      var len := |tab|;
      var i := 0;
      while i < len
        invariant 0 <= i && i % 3 == 0 && minpos == 0
      {
        var dr := r - ToUint8(ElemOrZero(tab, i));
        i := i + 1;
        var dg := g - ToUint8(ElemOrZero(tab, i));
        i := i + 1;
        var db := b - ToUint8(ElemOrZero(tab, i));
        var d := dr * dr + dg * dg + db * db;
        var index := i as real / 3.0;
        FractionalIndex(i / 3);
        if Used(usedEntry, index) && d < dmin {
          dmin := d;
          minpos := index.Floor;
        }
        i := i + 1;
      }
    }

    /** The blocks `addFrame` writes before the first frame only: the
        logical screen descriptor, the global colour table and, when the
        animation repeats, the Netscape looping extension. */
    method WriteGlobalBlocks()
      requires Valid() && colorTab.Some?
      modifies out.Repr
      ensures Valid() && fresh(out.Repr - old(out.Repr))
      ensures out.Contents == old(out.Contents)
        + (LsdBytes(width, height, palSize) + PaletteBytes(colorTab.value)
           + (if repeat >= 0 then NetscapeBytes(repeat) else []))
    {
      WriteLSD();
      WritePalette();
      assert fresh(out.Repr - old(out.Repr));
      if repeat >= 0 {
        WriteNetscapeExt();
      }
    }

    /** The blocks `addFrame` writes for every frame: graphic control
        extension, image descriptor, the local colour table on frames after
        the first, and the image data. */
    method WriteFrameBlocks() returns (ghost data: seq<Byte>)
      requires Valid() && colorTab.Some? && colorDepth == 8 && width * height >= 1
      modifies out.Repr
      ensures Valid() && fresh(out.Repr - old(out.Repr))
      ensures out.Contents == old(out.Contents)
        + GceBytes(transparent, dispose, delay, transIndex)
        + ImageDescBytes(width, height, firstFrame, palSize)
        + (if firstFrame then [] else PaletteBytes(colorTab.value))
        + data
      ensures DecodeImageData(data) == Some((PixelStream(indexedPixels, width * height), []))
    {
      WriteGraphicCtrlExt();
      WriteImageDesc();
      if !firstFrame {
        WritePalette();
      }
      data := WritePixels();
    }

    /** The analysis half of `addFrame`: the frame becomes RGB triples,
        then a palette and one palette index per pixel. */
    method PrepareFrame(imageData: seq<int>, learned: seq<Neuron>)
      requires 0 <= width && 0 <= height
      requires |learned| == NetSize && forall k :: 0 <= k < NetSize ==> BiasedColour(learned[k])
      modifies this`image, this`pixels, this`colorTab, this`indexedPixels, this`colorDepth, this`palSize
      modifies this`usedEntry, this`transIndex
      ensures image == imageData && colorTab == Some(PaletteOf(learned))
      ensures colorDepth == 8 && palSize == 7 && pixels == []
      ensures |indexedPixels| == width * height
      ensures MappedTo(PaletteOf(learned), indexedPixels, StripAlpha(imageData, width * height)) == true
      ensures usedEntry == old(usedEntry) + Entries(indexedPixels)
      ensures transparent.Some? ==> ClosestUsed(PaletteOf(learned), usedEntry, transparent.value, transIndex)
      ensures transparent.None? ==> transIndex == old(transIndex)
    {
      image := imageData;
      GetImagePixels();
      AnalyzePixels(learned);
    }

    /** The writing half of `addFrame`: the global blocks on the first
        frame, then the frame's own blocks. */
    method WriteFrame() returns (ghost data: seq<Byte>)
      requires Valid() && colorTab.Some? && colorDepth == 8 && width * height >= 1
      modifies out.Repr
      ensures Valid() && fresh(out.Repr - old(out.Repr))
      ensures out.Contents == old(out.Contents)
        + (if firstFrame then
             LsdBytes(width, height, palSize) + PaletteBytes(colorTab.value)
             + (if repeat >= 0 then NetscapeBytes(repeat) else [])
           else [])
        + GceBytes(transparent, dispose, delay, transIndex)
        + ImageDescBytes(width, height, firstFrame, palSize)
        + (if firstFrame then [] else PaletteBytes(colorTab.value))
        + data
      ensures DecodeImageData(data) == Some((PixelStream(indexedPixels, width * height), []))
    {
      ghost var global: seq<Byte> := [];
      if firstFrame {
        global := LsdBytes(width, height, palSize) + PaletteBytes(colorTab.value)
          + (if repeat >= 0 then NetscapeBytes(repeat) else []);
        WriteGlobalBlocks();
      }
      assert out.Contents == old(out.Contents) + global;
      assert fresh(out.Repr - old(out.Repr));
      data := WriteFrameBlocks();
    }

    /** `addFrame`: the first frame is preceded by the screen descriptor,
        the global table and, when the animation repeats, the NETSCAPE2.0
        extension; every frame is then a Graphic Control Extension, an
        Image Descriptor, a local table on every frame but the first, and
        its image data. */
    method AddFrame(imageData: seq<int>, learned: seq<Neuron>) returns (ghost data: seq<Byte>)
      requires Valid() && 0 <= width && 0 <= height && width * height >= 1
      requires |learned| == NetSize && forall k :: 0 <= k < NetSize ==> BiasedColour(learned[k])
      modifies this`image, this`pixels, this`colorTab, this`indexedPixels, this`colorDepth, this`palSize
      modifies this`usedEntry, this`transIndex, this`firstFrame, out.Repr
      ensures Valid() && fresh(out.Repr - old(out.Repr))
      ensures image == imageData && !firstFrame && colorTab == Some(PaletteOf(learned)) && palSize == 7
      ensures out.Contents == old(out.Contents)
        + (if old(firstFrame) then
             LsdBytes(width, height, palSize) + PaletteBytes(PaletteOf(learned))
             + (if repeat >= 0 then NetscapeBytes(repeat) else [])
           else [])
        + GceBytes(transparent, dispose, delay, transIndex)
        + ImageDescBytes(width, height, old(firstFrame), palSize)
        + (if old(firstFrame) then [] else PaletteBytes(PaletteOf(learned)))
        + data
      ensures DecodeImageData(data) == Some((indexedPixels, []))
      ensures |indexedPixels| == width * height
      ensures MappedTo(PaletteOf(learned), indexedPixels, StripAlpha(imageData, width * height)) == true
      ensures usedEntry == old(usedEntry) + Entries(indexedPixels)
      ensures transparent.Some? ==> ClosestUsed(PaletteOf(learned), usedEntry, transparent.value, transIndex)
      ensures transparent.None? ==> transIndex == old(transIndex)
    {
      PrepareFrame(imageData, learned);
      data := WriteFrame();
      firstFrame := false;
      IndicesAreBytes(indexedPixels, width * height);
    }

    /** `finish`: the trailer byte 0x3B. */
    method Finish()
      requires Valid()
      modifies out.Repr
      ensures Valid() && fresh(out.Repr - old(out.Repr))
      ensures out.Contents == old(out.Contents) + [0x3B]
    {
      out.WriteByte(0x3B);
    }
  }

  /** Pixel `j` of `indices` names a palette entry nearest in L1 distance
      to RGB pixel `j` of `rgb`. */
  ghost predicate MappedTo(pal: seq<int>, indices: seq<int>, rgb: seq<int>)
  {
    && 3 * |indices| <= |rgb|
    && forall j :: 0 <= j < |indices| ==> NearestEntry(pal, indices[j], rgb[3 * j], rgb[3 * j + 1], rgb[3 * j + 2])
  }

  lemma MappedSnoc(pal: seq<int>, indices: seq<int>, rgb: seq<int>, x: int)
    requires MappedTo(pal, indices, rgb) && 3 * |indices| + 3 <= |rgb|
    requires NearestEntry(pal, x, rgb[3 * |indices|], rgb[3 * |indices| + 1], rgb[3 * |indices| + 2])
    ensures MappedTo(pal, indices + [x], rgb)
  {
    var s := indices + [x];
    forall j | 0 <= j < |s|
      ensures NearestEntry(pal, s[j], rgb[3 * j], rgb[3 * j + 1], rgb[3 * j + 2])
    {
      if j < |indices| {
        assert s[j] == indices[j];
      }
    }
  }

  /** The values a sequence holds. */
  function Entries(s: seq<int>): (e: set<int>)
    ensures forall x :: x in e <==> x in s
  {
    set x | x in s
  }

  lemma EntriesSnoc(s: seq<int>, x: int)
    ensures Entries(s + [x]) == Entries(s) + {x}
  {
  }

  /** Palette indices fit a byte, so the LZW encoder sees them unchanged. */
  lemma IndicesAreBytes(indices: seq<int>, n: nat)
    requires |indices| == n && forall j :: 0 <= j < n ==> 0 <= indices[j] < 256
    ensures PixelStream(indices, n) == indices
  {
  }

  /** The pixels in the first `i` rows of a frame `w` pixels wide. */
  function Rows(w: nat, i: nat): nat
  {
    if i == 0 then 0 else Rows(w, i - 1) + w
  }

  lemma {:induction false} RowsProduct(w: nat, i: nat)
    ensures Rows(w, i) == w * i
  {
    if i > 0 {
      RowsProduct(w, i - 1);
    }
  }

  lemma {:induction false} RowsMono(w: nat, i: nat, h: nat)
    requires i <= h
    ensures Rows(w, i) <= Rows(w, h)
    decreases h
  {
    if i < h {
      RowsMono(w, i, h - 1);
    }
  }

}
