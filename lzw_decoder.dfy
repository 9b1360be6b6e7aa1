/** A reference reader for GIF table-based image data (GIF89a, section 22 and
    Appendix F): the byte sub-blocks, the LSB-first packing of variable-width
    codes, and the variable-length-code LZW decompressor with its Clear and
    End of Information codes. It is independent of the encoder, which is
    proved to produce data that this reader turns back into the pixels. */
module GifLzw {
  import opened Common

  /** Codes are at most 12 bits wide, so at most 4096 table entries exist. */
  const MaxBits := 12
  const MaxCodes := 4096

  /** The longest data sub-block the encoder writes. */
  const MaxBlock := 254

  // ---------------------------------------------------------------------
  // Data sub-blocks

  /** The payload split into sub-blocks as the encoder emits them: full
      blocks of 254 bytes, then a shorter last block; each block is preceded
      by its length byte and no block is empty. */
  function Blocks(p: seq<Byte>): seq<Byte>
    decreases |p|
  {
    if |p| == 0 then []
    else if |p| <= MaxBlock then [|p|] + p
    else [MaxBlock] + p[..MaxBlock] + Blocks(p[MaxBlock..])
  }

  /** Every length byte of a sequence of sub-blocks is between 1 and 254 and
      is followed by exactly that many bytes. */
  ghost predicate Framed(s: seq<Byte>)
    decreases |s|
  {
    s == [] || (1 <= s[0] <= MaxBlock && 1 + s[0] as int <= |s| && Framed(s[1 + s[0] as int..]))
  }

  /** Reads data sub-blocks up to and including the zero-length block
      terminator; yields the concatenated payload and the bytes after the
      terminator. */
  function Unblock(s: seq<Byte>): Option<(seq<Byte>, seq<Byte>)>
    decreases |s|
  {
    if |s| == 0 then None
    else
      var n := s[0] as int;
      if n == 0 then Some(([], s[1..]))
      else if |s| < 1 + n then None
      else match Unblock(s[1 + n..])
        case None => None
        case Some(r) => Some((s[1..1 + n] + r.0, r.1))
  }

  lemma {:induction false} BlocksFramed(p: seq<Byte>)
    ensures Framed(Blocks(p))
    decreases |p|
  {
    if |p| > MaxBlock {
      var s := Blocks(p);
      assert s[1 + s[0] as int..] == Blocks(p[MaxBlock..]);
      BlocksFramed(p[MaxBlock..]);
    }
  }

  lemma {:induction false} UnblockBlocks(p: seq<Byte>, rest: seq<Byte>)
    ensures Unblock(Blocks(p) + [0] + rest) == Some((p, rest))
    decreases |p|
  {
    var s := Blocks(p) + [0] + rest;
    if |p| == 0 {
      assert s == [0] + rest;
    } else if |p| <= MaxBlock {
      assert s[0] as int == |p|;
      assert s[1 + |p|..] == [0] + rest;
      assert Unblock([0] + rest) == Some(([], rest)) by {
        assert ([0] + rest)[1..] == rest;
      }
      assert s[1..1 + |p|] == p;
      assert p + [] == p;
    } else {
      assert s[0] as int == MaxBlock;
      assert s[1 + MaxBlock..] == Blocks(p[MaxBlock..]) + [0] + rest;
      assert s[1..1 + MaxBlock] == p[..MaxBlock];
      UnblockBlocks(p[MaxBlock..], rest);
      assert p[..MaxBlock] + p[MaxBlock..] == p;
    }
  }

  /** Appending one byte to a payload whose length is a multiple of 254 adds
      only to the last, short block. */
  lemma {:induction false} BlocksOfFullBlocks(p: seq<Byte>, q: seq<Byte>)
    requires |p| % MaxBlock == 0 && 0 < |q| <= MaxBlock
    ensures Blocks(p + q) == Blocks(p) + [|q|] + q
    decreases |p|
  {
    if |p| == 0 {
      assert p + q == q;
    } else {
      assert (p + q)[MaxBlock..] == p[MaxBlock..] + q;
      assert (p + q)[..MaxBlock] == p[..MaxBlock];
      BlocksOfFullBlocks(p[MaxBlock..], q);
    }
  }

  // ---------------------------------------------------------------------
  // LSB-first bit packing

  /** The `w` low bits of `v`, least significant first. */
  function CodeBits(v: nat, w: nat): (r: seq<bool>)
    ensures |r| == w
  {
    if w == 0 then [] else [v % 2 == 1] + CodeBits(v / 2, w - 1)
  }

  /** The number whose bits, least significant first, are `b`. */
  function BitsValue(b: seq<bool>): nat
  {
    if b == [] then 0 else (if b[0] then 1 else 0) + 2 * BitsValue(b[1..])
  }

  /** The bits of a byte sequence, each byte least significant bit first. */
  function BytesBits(bs: seq<Byte>): (r: seq<bool>)
    ensures |r| == 8 * |bs|
  {
    if bs == [] then [] else BytesBits(bs[..|bs| - 1]) + CodeBits(bs[|bs| - 1], 8)
  }

  lemma {:induction false} CodeBitsValue(v: nat, w: nat)
    requires v < Pow2(w)
    ensures BitsValue(CodeBits(v, w)) == v
  {
    if w > 0 {
      CodeBitsValue(v / 2, w - 1);
      assert CodeBits(v, w)[1..] == CodeBits(v / 2, w - 1);
    }
  }

  /** Bits of a number built from a low part of `a` bits and a high part. */
  lemma {:induction false} CodeBitsJoin(lo: nat, hi: nat, a: nat, b: nat)
    requires lo < Pow2(a)
    ensures CodeBits(lo + hi * Pow2(a), a + b) == CodeBits(lo, a) + CodeBits(hi, b)
  {
    if a > 0 {
      var q := Pow2(a - 1);
      var hq := hi * q;
      assert hi * Pow2(a) == 2 * hq;
      var v := lo + 2 * hq;
      assert v / 2 == lo / 2 + hq && v % 2 == lo % 2;
      CodeBitsJoin(lo / 2, hi, a - 1, b);
    }
  }

  lemma {:induction false} CodeBitsZero(n: nat)
    ensures CodeBits(0, n) == seq(n, _ => false)
  {
    if n > 0 {
      CodeBitsZero(n - 1);
    }
  }

  lemma {:induction false} BytesBitsAppend(a: seq<Byte>, b: seq<Byte>)
    ensures BytesBits(a + b) == BytesBits(a) + BytesBits(b)
    decreases |b|
  {
    if b != [] {
      assert (a + b)[..|a + b| - 1] == a + b[..|b| - 1];
      BytesBitsAppend(a, b[..|b| - 1]);
    } else {
      assert a + b == a;
    }
  }

  /** One more byte adds its eight bits at the end. */
  lemma BytesBitsSnoc(bs: seq<Byte>, x: Byte)
    ensures BytesBits(bs + [x]) == BytesBits(bs) + CodeBits(x as nat, 8)
  {
    assert (bs + [x])[..|bs|] == bs;
  }

  // ---------------------------------------------------------------------
  // Codes and their widths

  /** A code as written into the stream, with the width it was written in. */
  datatype Emit = Emit(code: nat, width: nat)

  function PackCodes(em: seq<Emit>): (r: seq<bool>)
    decreases |em|
  {
    if em == [] then [] else PackCodes(em[..|em| - 1]) + CodeBits(em[|em| - 1].code, em[|em| - 1].width)
  }

  lemma {:induction false} PackCodesFront(e: Emit, rest: seq<Emit>)
    ensures PackCodes([e] + rest) == CodeBits(e.code, e.width) + PackCodes(rest)
    decreases |rest|
  {
    if rest != [] {
      var l := rest[..|rest| - 1];
      assert ([e] + rest)[..|rest|] == [e] + l;
      PackCodesFront(e, l);
    } else {
      assert [e] + rest == [e];
      assert ([e] + rest)[..0] == [];
    }
  }

  // ---------------------------------------------------------------------
  // The decompressor

  /** Decoder state: the minimum code size, the current code width, the
      string table indexed by code (the Clear and End codes map to empty
      strings), the previous code (-1 right after a Clear) and the output. */
  datatype Dec = Dec(minSize: nat, width: nat, table: seq<seq<int>>, prev: int, out: seq<int>)

  function ClearCode(minSize: nat): nat { Pow2(minSize) }

  function InitTable(minSize: nat): (t: seq<seq<int>>)
    ensures |t| == Pow2(minSize) + 2
    ensures forall k :: 0 <= k < Pow2(minSize) ==> t[k] == [k]
    ensures t[Pow2(minSize)] == [] && t[Pow2(minSize) + 1] == []
  {
    seq(Pow2(minSize) + 2, k => if k < Pow2(minSize) then [k] else [])
  }

  /** The state after a Clear code: initial width and table, no previous code. */
  function Reset(minSize: nat, out: seq<int>): Dec
  {
    Dec(minSize, minSize + 1, InitTable(minSize), -1, out)
  }

  /** Processes one code other than End of Information. */
  function Step(d: Dec, code: int): Option<Dec>
  {
    var clear := ClearCode(d.minSize);
    if code == clear then Some(Reset(d.minSize, d.out))
    else if code < 0 || code == clear + 1 then None
    else if d.prev < 0 then
      // first code after a Clear: a literal, which adds no entry
      if code < clear then Some(d.(prev := code, out := d.out + [code])) else None
    else if d.prev >= |d.table| || d.table[d.prev] == [] then None
    else
      var pstr := d.table[d.prev];
      var cur :=
        if code < |d.table| then d.table[code]
        else if code == |d.table| && |d.table| < MaxCodes then pstr + [pstr[0]]
        else [];
      if cur == [] then None
      else
        var table' := if |d.table| < MaxCodes then d.table + [pstr + [cur[0]]] else d.table;
        var width' := if |table'| >= Pow2(d.width) && d.width < MaxBits then d.width + 1 else d.width;
        Some(Dec(d.minSize, width', table', code, d.out + cur))
  }

  /** Runs the decompressor over codes that are not End of Information,
      checking that each was written in the width the decoder expects. */
  function Run(d0: Dec, em: seq<Emit>): Option<Dec>
    decreases |em|
  {
    if em == [] then Some(d0)
    else match Run(d0, em[..|em| - 1])
      case None => None
      case Some(d) =>
        var e := em[|em| - 1];
        if e.width != d.width || e.width == 0 || e.code >= Pow2(e.width) || e.code == ClearCode(d.minSize) + 1 then None
        else Step(d, e.code)
  }

  /** Reads codes from an LSB-first bit stream, each in the width the
      decoder state prescribes, until the End of Information code. */
  function DecodeBits(bits: seq<bool>, d: Dec): Option<seq<int>>
    decreases |bits|
  {
    if d.width == 0 || |bits| < d.width then None
    else
      var code := BitsValue(bits[..d.width]);
      if code == ClearCode(d.minSize) + 1 then Some(d.out)
      else match Step(d, code)
        case None => None
        case Some(d') => DecodeBits(bits[d.width..], d')
  }

  /** Decodes table-based image data: the minimum code size byte, then data
      sub-blocks up to the block terminator. Yields the pixel indices and
      the bytes that follow the image data. */
  function DecodeImageData(data: seq<Byte>): Option<(seq<int>, seq<Byte>)>
  {
    if |data| == 0 || data[0] < 2 || data[0] > 11 then None
    else match Unblock(data[1..])
      case None => None
      case Some(r) =>
        match DecodeBits(BytesBits(r.0), Reset(data[0], []))
        case None => None
        case Some(px) => Some((px, r.1))
  }

  /** Codes written in the widths the decoder expects are read back: after
      codes `em` (leaving the decoder in state `d`) and an End code, the
      decoder yields the output of `d`, whatever bits follow. */
  lemma {:induction false} DecodePacked(d0: Dec, em: seq<Emit>, d: Dec, all: seq<Emit>, tail: seq<bool>)
    requires Run(d0, em) == Some(d)
    requires d.width > 0 && ClearCode(d.minSize) + 1 < Pow2(d.width)
    requires all == em + [Emit(ClearCode(d.minSize) + 1, d.width)]
    ensures DecodeBits(PackCodes(all) + tail, d0) == Some(d.out)
  {
    DecodePackedFrom(d0, em, 0, d, tail);
    assert em[0..] == em;
  }

  lemma {:induction false} DecodePackedFrom(d0: Dec, em: seq<Emit>, j: nat, d: Dec, tail: seq<bool>)
    requires j <= |em|
    requires Run(d0, em) == Some(d)
    requires d.width > 0 && ClearCode(d.minSize) + 1 < Pow2(d.width)
    ensures Run(d0, em[..j]).Some?
    ensures DecodeBits(PackCodes(em[j..] + [Emit(ClearCode(d.minSize) + 1, d.width)]) + tail, Run(d0, em[..j]).value) == Some(d.out)
    decreases |em| - j
  {
    if j == |em| {
      assert em[..j] == em;
      assert em[j..] == [];
      DecodeEnd(d, tail);
    } else {
      DecodePackedFrom(d0, em, j + 1, d, tail);
      RunOne(d0, em, j);
      var eoi := Emit(ClearCode(d.minSize) + 1, d.width);
      SplitHead(em, j, eoi);
      DecodeOne(Run(d0, em[..j]).value, em[j], Run(d0, em[..j + 1]).value, em[j + 1..] + [eoi], tail);
    }
  }

  lemma SplitHead<T>(s: seq<T>, j: nat, x: T)
    requires j < |s|
    ensures s[j..] + [x] == [s[j]] + (s[j + 1..] + [x])
  {
    assert s[j..] == [s[j]] + s[j + 1..];
  }

  /** Running a prefix one code longer is one more run of a single code. */
  lemma RunOne(d0: Dec, em: seq<Emit>, j: nat)
    requires j < |em| && Run(d0, em[..j + 1]).Some?
    ensures Run(d0, em[..j]).Some?
    ensures Run(Run(d0, em[..j]).value, [em[j]]) == Run(d0, em[..j + 1])
  {
    assert em[..j + 1][..j] == em[..j];
    assert [em[j]][..0] == [];
  }


  /** An End code in the expected width ends decoding. */
  lemma DecodeEnd(d: Dec, tail: seq<bool>)
    requires d.width > 0 && ClearCode(d.minSize) + 1 < Pow2(d.width)
    ensures DecodeBits(PackCodes([] + [Emit(ClearCode(d.minSize) + 1, d.width)]) + tail, d) == Some(d.out)
  {
    var eoi := Emit(ClearCode(d.minSize) + 1, d.width);
    assert [] + [eoi] == [eoi];
    assert PackCodes([eoi]) == CodeBits(eoi.code, eoi.width) by {
      assert [eoi][..0] == [];
    }
    var bits := PackCodes([eoi]) + tail;
    assert bits[..d.width] == CodeBits(eoi.code, eoi.width);
    CodeBitsValue(eoi.code, eoi.width);
  }

  /** One code in the expected width is read and stepped over. */
  lemma DecodeOne(dj: Dec, e: Emit, dj1: Dec, rest: seq<Emit>, tail: seq<bool>)
    requires Run(dj, [e]) == Some(dj1)
    ensures DecodeBits(PackCodes([e] + rest) + tail, dj) == DecodeBits(PackCodes(rest) + tail, dj1)
  {
    assert [e][..0] == [];
    assert e.width == dj.width && e.width > 0 && e.code < Pow2(e.width);
    PackCodesFront(e, rest);
    var bits := PackCodes([e] + rest) + tail;
    assert bits == CodeBits(e.code, e.width) + (PackCodes(rest) + tail);
    assert bits[..dj.width] == CodeBits(e.code, e.width);
    assert bits[dj.width..] == PackCodes(rest) + tail;
    CodeBitsValue(e.code, e.width);
  }
}
