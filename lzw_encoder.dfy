/** The GIF LZW compressor (gif.worker.js:362-596): a variable-length-code
    LZW encoder with an open-addressing hash table for the string table, an
    LSB-first bit accumulator and a 254-byte packet buffer. The class keeps,
    besides the fields of the source, a ghost account of every code written
    (`emitted`), every byte packed (`payload`), the string each code stands
    for (`strings`) and the state of a reference decoder fed the codes so far
    (`dec`); the invariants tie them together, so that `Encode` is proved to
    write table-based image data that the reference decoder of module GifLzw
    turns back into the pixels. */
module LzwEncoding {
  import opened Common
  import opened Bitwise
  import opened Hashing
  import opened GifLzw
  import opened ByteArrays

  const EOF := -1

  /** `MAXCODE(n_bits)`: the largest code of `n` bits. */
  function MaxCode(n: nat): int { Pow2(n) - 1 }

  /** The limit the encoder compares `free_ent` with at width `n`: at the
      largest width it is 4096, so the width never grows past 12 bits. */
  function MaxCodeFor(n: nat): int { if n == MaxBits then MaxCodes else MaxCode(n) }

  /** The width after an output in which no Clear is pending. */
  function NextWidth(n: nat, freeEnt: int): nat { if freeEnt > MaxCodeFor(n) then n + 1 else n }

  /** What the encoder reads: `n` pixels, each `pixels[k] & 0xff`, a read past
      the end giving 0. */
  function PixelStream(pixels: seq<int>, n: nat): (r: seq<int>)
    ensures |r| == n
    ensures forall k :: 0 <= k < n ==> r[k] == ToUint8(ElemOrZero(pixels, k))
  {
    seq(n, k => ToUint8(ElemOrZero(pixels, k)))
  }

  /** Bits completed by zero bits up to a byte boundary. */
  ghost function PadToByte(bits: seq<bool>): seq<bool>
  {
    bits + seq((8 - |bits| % 8) % 8, _ => false)
  }

  /** The bytes `payload` are the codes `em` packed least significant bit
      first, with the last byte padded with zero bits. */
  ghost predicate Padded(payload: seq<Byte>, em: seq<Emit>)
  {
    BytesBits(payload) == PadToByte(PackCodes(em))
  }

  // ---------------------------------------------------------------------
  // The string table, seen from the decoder

  /** The encoder's string table `strings` (one string per code below
      `freeEnt`), its current prefix code `ent` and its width `nBits`, in
      step with the decoder state `d` reached by the codes `em`: right after a
      Clear the two tables agree; otherwise the decoder lags one entry behind,
      and the entry it is missing is the previous code's string followed by
      the first pixel of the string of `ent`. The pixels consumed so far,
      `done`, are the decoder's output followed by the string of `ent`. */
  ghost predicate DictOk(minSize: nat, em: seq<Emit>, d: Dec, strings: seq<seq<int>>, freeEnt: int, ent: int, nBits: nat, done: seq<int>)
  {
    Run(Reset(minSize, []), em) == Some(d) && TablesOk(minSize, d, strings, freeEnt, ent, nBits, done)
  }

  /** The part of `DictOk` that relates the decoder state to the encoder's. */
  ghost predicate TablesOk(minSize: nat, d: Dec, strings: seq<seq<int>>, freeEnt: int, ent: int, nBits: nat, done: seq<int>)
  {
    var first := Pow2(minSize) + 2;
    && 2 <= minSize <= 8
    && d.minSize == minSize && d.width == nBits
    && minSize + 1 <= nBits <= MaxBits
    && first <= freeEnt <= MaxCodes && freeEnt <= Pow2(nBits)
    && |strings| == freeEnt
    && strings[..first] == InitTable(minSize)
    && (forall k :: first <= k < freeEnt ==> strings[k] != [])
    && 0 <= ent < freeEnt && strings[ent] != []
    && (if d.prev < 0 then freeEnt == first && d.table == strings && nBits == minSize + 1
        else d.prev < |d.table| && d.table[d.prev] != [] && strings == d.table + [d.table[d.prev] + [strings[ent][0]]])
    && d.out + strings[ent] == done
  }

  /** A code in the expected width that is not the End code takes the
      decoder one `Step` further. */
  lemma RunSnoc(d0: Dec, em: seq<Emit>, d: Dec, e: Emit)
    requires Run(d0, em) == Some(d)
    requires e.width == d.width && e.width != 0 && e.code < Pow2(e.width) && e.code != ClearCode(d.minSize) + 1
    ensures Run(d0, em + [e]) == Step(d, e.code)
  {
    assert (em + [e])[..|em + [e]| - 1] == em;
  }

  /** Writing the prefix code `ent` moves the decoder to a state whose table
      is the encoder's, whose output is all pixels consumed, and whose width
      is the encoder's next width. */
  lemma OutputStep(minSize: nat, em: seq<Emit>, d: Dec, strings: seq<seq<int>>, freeEnt: int, ent: int, nBits: nat, done: seq<int>)
    requires DictOk(minSize, em, d, strings, freeEnt, ent, nBits, done)
    ensures Run(Reset(minSize, []), em + [Emit(ent, nBits)]) == Some(Dec(minSize, NextWidth(nBits, freeEnt), strings, ent, done))
  {
    var clear := Pow2(minSize);
    var first := clear + 2;
    EntIsData(minSize, strings, ent);
    if d.prev < 0 {
      StepFirst(minSize, d, strings, freeEnt, ent, nBits, done);
    } else {
      StepNext(minSize, d, strings, freeEnt, ent, nBits, done);
    }
    RunSnoc(Reset(minSize, []), em, d, Emit(ent, nBits));
  }

  /** The prefix code is never the Clear or the End code. */
  lemma EntIsData(minSize: nat, strings: seq<seq<int>>, ent: int)
    requires 2 <= minSize && Pow2(minSize) + 2 <= |strings| && strings[..Pow2(minSize) + 2] == InitTable(minSize)
    requires 0 <= ent < |strings| && strings[ent] != []
    ensures ent != Pow2(minSize) && ent != Pow2(minSize) + 1
  {
    var first := Pow2(minSize) + 2;
    assert strings[first - 1] == strings[..first][first - 1] == [];
    assert strings[first - 2] == strings[..first][first - 2] == [];
  }

  lemma StepFirst(minSize: nat, d: Dec, strings: seq<seq<int>>, freeEnt: int, ent: int, nBits: nat, done: seq<int>)
    requires TablesOk(minSize, d, strings, freeEnt, ent, nBits, done) && d.prev < 0
    requires ent != Pow2(minSize) && ent != Pow2(minSize) + 1
    ensures ent < Pow2(nBits)
    ensures Step(d, ent) == Some(Dec(minSize, NextWidth(nBits, freeEnt), strings, ent, done))
  {
    var clear := Pow2(minSize);
    assert Pow2(minSize + 1) == 2 * clear;
    Pow2Mono(2, minSize);
    assert strings[ent] == InitTable(minSize)[ent];
  }

  lemma StepNext(minSize: nat, d: Dec, strings: seq<seq<int>>, freeEnt: int, ent: int, nBits: nat, done: seq<int>)
    requires TablesOk(minSize, d, strings, freeEnt, ent, nBits, done) && d.prev >= 0
    requires ent != Pow2(minSize) && ent != Pow2(minSize) + 1
    ensures ent < Pow2(nBits)
    ensures Step(d, ent) == Some(Dec(minSize, NextWidth(nBits, freeEnt), strings, ent, done))
  {
    var pstr := d.table[d.prev];
    if ent == |d.table| {
      assert strings[ent] == pstr + [strings[ent][0]];
      assert strings[ent][0] == pstr[0];
    } else {
      assert strings[ent] == d.table[ent];
    }
    assert Pow2(MaxBits) == MaxCodes by { MasksAreLowBits(12); }
  }

  /** A new string enters the table. */
  lemma DictAdd(minSize: nat, em: seq<Emit>, d: Dec, strings: seq<seq<int>>, freeEnt: int, ent: int, nBits: nat, done: seq<int>, c: int)
    requires DictOk(minSize, em, d, strings, freeEnt, ent, nBits, done)
    requires freeEnt < MaxCodes && 0 <= c < Pow2(minSize)
    ensures var em' := em + [Emit(ent, nBits)];
      DictOk(minSize, em', Run(Reset(minSize, []), em').value, strings + [strings[ent] + [c]], freeEnt + 1, c,
             NextWidth(nBits, freeEnt), done + [c])
  {
    OutputStep(minSize, em, d, strings, freeEnt, ent, nBits, done);
    var w := NextWidth(nBits, freeEnt);
    WidthAfterAdd(nBits, freeEnt);
    TablesAdd(minSize, d, strings, freeEnt, ent, nBits, done, c, w);
  }

  /** The next width still has room for the new code and stays within
      12 bits. */
  lemma WidthAfterAdd(nBits: nat, freeEnt: int)
    requires nBits <= MaxBits && freeEnt <= Pow2(nBits) && freeEnt < MaxCodes
    ensures nBits <= NextWidth(nBits, freeEnt) <= MaxBits && freeEnt + 1 <= Pow2(NextWidth(nBits, freeEnt))
  {
    assert Pow2(MaxBits) == MaxCodes by { MasksAreLowBits(12); }
    if freeEnt > MaxCodeFor(nBits) {
      assert Pow2(nBits + 1) == 2 * Pow2(nBits);
    }
  }

  lemma TablesAdd(minSize: nat, d: Dec, strings: seq<seq<int>>, freeEnt: int, ent: int, nBits: nat, done: seq<int>, c: int, w: nat)
    requires TablesOk(minSize, d, strings, freeEnt, ent, nBits, done)
    requires freeEnt < MaxCodes && 0 <= c < Pow2(minSize)
    requires nBits <= w <= MaxBits && freeEnt + 1 <= Pow2(w)
    ensures TablesOk(minSize, Dec(minSize, w, strings, ent, done), strings + [strings[ent] + [c]], freeEnt + 1, c, w, done + [c])
  {
    var first := Pow2(minSize) + 2;
    var s' := strings + [strings[ent] + [c]];
    assert s'[..first] == strings[..first];
    assert s'[c] == strings[..first][c] == [c];
  }

  /** The table is full: the prefix code is written, then a Clear code in
      the widest width, and both tables start again. */
  lemma DictClear(minSize: nat, em: seq<Emit>, d: Dec, strings: seq<seq<int>>, freeEnt: int, ent: int, nBits: nat, done: seq<int>, c: int)
    requires DictOk(minSize, em, d, strings, freeEnt, ent, nBits, done)
    requires freeEnt == MaxCodes && 0 <= c < Pow2(minSize)
    ensures nBits == MaxBits && NextWidth(nBits, freeEnt) == MaxBits
    ensures var em' := em + [Emit(ent, nBits)] + [Emit(Pow2(minSize), MaxBits)];
      && Run(Reset(minSize, []), em') == Some(Reset(minSize, done))
      && DictOk(minSize, em', Reset(minSize, done), InitTable(minSize), Pow2(minSize) + 2, c, minSize + 1, done + [c])
  {
    FullWidth(nBits, freeEnt);
    OutputStep(minSize, em, d, strings, freeEnt, ent, nBits, done);
    var em1 := em + [Emit(ent, nBits)];
    var e := Emit(Pow2(minSize), MaxBits);
    ClearStep(minSize, em1, Dec(minSize, MaxBits, strings, ent, done));
    DictRestart(minSize, em1 + [e], done, c);
  }

  /** A full table of 4096 codes is only reached at the widest width. */
  lemma FullWidth(nBits: nat, freeEnt: int)
    requires nBits <= MaxBits && freeEnt <= Pow2(nBits) && freeEnt == MaxCodes
    ensures nBits == MaxBits && NextWidth(nBits, freeEnt) == MaxBits
  {
    assert Pow2(MaxBits) == MaxCodes by { MasksAreLowBits(12); }
    assert Pow2(11) == 2048 by { MasksAreLowBits(11); }
    if nBits < MaxBits {
      Pow2Mono(nBits, 11);
      assert false;
    }
  }

  /** A Clear code in the decoder's width resets the decoder, keeping its
      output. */
  lemma ClearStep(minSize: nat, em: seq<Emit>, d: Dec)
    requires 2 <= minSize <= 8 && d.minSize == minSize && d.width == MaxBits
    requires Run(Reset(minSize, []), em) == Some(d)
    ensures Run(Reset(minSize, []), em + [Emit(Pow2(minSize), MaxBits)]) == Some(Reset(minSize, d.out))
  {
    Pow2Mono(minSize, 8);
    Pow2Facts();
    RunSnoc(Reset(minSize, []), em, d, Emit(Pow2(minSize), MaxBits));
  }

  /** After a Clear code the tables agree again and the next pixel is the
      prefix code. */
  lemma DictRestart(minSize: nat, em: seq<Emit>, done: seq<int>, c: int)
    requires 2 <= minSize <= 8 && 0 <= c < Pow2(minSize)
    requires Run(Reset(minSize, []), em) == Some(Reset(minSize, done))
    ensures DictOk(minSize, em, Reset(minSize, done), InitTable(minSize), Pow2(minSize) + 2, c, minSize + 1, done + [c])
  {
    Pow2Mono(minSize + 1, MaxBits);
    assert Pow2(minSize + 1) == 2 * Pow2(minSize);
    assert Pow2(MaxBits) == MaxCodes by { MasksAreLowBits(12); }
    assert InitTable(minSize)[..Pow2(minSize) + 2] == InitTable(minSize);
    assert InitTable(minSize)[c] == [c];
  }

  /** A longer string already in the table becomes the prefix code. */
  lemma DictMatch(minSize: nat, em: seq<Emit>, d: Dec, strings: seq<seq<int>>, freeEnt: int, ent: int, nBits: nat, done: seq<int>, c: int, code: int)
    requires DictOk(minSize, em, d, strings, freeEnt, ent, nBits, done)
    requires Pow2(minSize) + 2 <= code < freeEnt && strings[code] == strings[ent] + [c]
    ensures DictOk(minSize, em, d, strings, freeEnt, code, nBits, done + [c])
  {
  }

  /** The encoder's first steps: the first pixel is the prefix code and a
      Clear code has been written in the initial width. */
  lemma DictStart(minSize: nat, p: int)
    requires 2 <= minSize <= 8 && 0 <= p < Pow2(minSize)
    ensures DictOk(minSize, [Emit(Pow2(minSize), minSize + 1)], Reset(minSize, []), InitTable(minSize), Pow2(minSize) + 2, p, minSize + 1, [p])
  {
    RunSnoc(Reset(minSize, []), [], Reset(minSize, []), Emit(Pow2(minSize), minSize + 1));
    assert [] + [Emit(Pow2(minSize), minSize + 1)] == [Emit(Pow2(minSize), minSize + 1)];
    assert Pow2(minSize + 1) == 2 * Pow2(minSize);
    DictRestart(minSize, [Emit(Pow2(minSize), minSize + 1)], [], p);
    assert [] + [p] == [p];
  }

  /** The last prefix code and the End code, followed by any padding, decode
      to all pixels consumed. */
  lemma DictFinish(minSize: nat, em: seq<Emit>, d: Dec, strings: seq<seq<int>>, freeEnt: int, ent: int, nBits: nat, done: seq<int>,
                   all: seq<Emit>, payload: seq<Byte>)
    requires DictOk(minSize, em, d, strings, freeEnt, ent, nBits, done)
    requires all == em + [Emit(ent, nBits)] + [Emit(Pow2(minSize) + 1, NextWidth(nBits, freeEnt))]
    requires Padded(payload, all)
    ensures DecodeBits(BytesBits(payload), Reset(minSize, [])) == Some(done)
  {
    OutputStep(minSize, em, d, strings, freeEnt, ent, nBits, done);
    var w := NextWidth(nBits, freeEnt);
    EndFits(minSize, w);
    var pad := seq((8 - |PackCodes(all)| % 8) % 8, _ => false);
    DecodePacked(Reset(minSize, []), em + [Emit(ent, nBits)], Dec(minSize, w, strings, ent, done), all, pad);
  }

  /** The End code fits every width the encoder uses. */
  lemma EndFits(minSize: nat, w: nat)
    requires 2 <= minSize && minSize + 1 <= w
    ensures Pow2(minSize) + 1 < Pow2(w)
  {
    Pow2Mono(minSize + 1, w);
    Pow2Mono(2, minSize);
    assert Pow2(minSize + 1) == 2 * Pow2(minSize);
  }

  // ---------------------------------------------------------------------
  // The hash table

  /** Every occupied slot of `h`/`ct` holds a key `c * 4096 + ent` and a code
      whose string is the string of `ent` followed by `c`; `occ` is the set
      of occupied slots, one per code added since the last Clear. */
  ghost predicate HashOk(h: seq<int>, ct: seq<int>, strings: seq<seq<int>>, first: int, freeEnt: int, occ: set<int>)
  {
    && |h| == HSIZE && |ct| == HSIZE && |strings| == freeEnt && 0 <= first <= freeEnt
    && (forall s :: s in occ ==> 0 <= s < HSIZE && h[s] >= 0)
    && (forall s :: 0 <= s < HSIZE && h[s] >= 0 ==> s in occ)
    && |occ| == freeEnt - first
    && (forall s :: 0 <= s < HSIZE && h[s] >= 0 ==>
          && first <= ct[s] < freeEnt && h[s] % MaxCodes < freeEnt
          && strings[ct[s]] == strings[h[s] % MaxCodes] + [h[s] / MaxCodes])
  }

  lemma HashMatch(h: seq<int>, ct: seq<int>, strings: seq<seq<int>>, first: int, freeEnt: int, occ: set<int>, i: int, c: int, ent: int)
    requires HashOk(h, ct, strings, first, freeEnt, occ)
    requires 0 <= i < HSIZE && 0 <= c && 0 <= ent < MaxCodes && h[i] == c * MaxCodes + ent
    ensures first <= ct[i] < freeEnt && strings[ct[i]] == strings[ent] + [c]
  {
    ModOfDecomposition(h[i], MaxCodes, c, ent);
  }

  lemma HashInsert(h: seq<int>, ct: seq<int>, strings: seq<seq<int>>, first: int, freeEnt: int, occ: set<int>, i: int, c: int, ent: int)
    requires HashOk(h, ct, strings, first, freeEnt, occ)
    requires 0 <= i < HSIZE && h[i] < 0 && 0 <= c && 0 <= ent < freeEnt && ent < MaxCodes
    ensures HashOk(h[i := c * MaxCodes + ent], ct[i := freeEnt], strings + [strings[ent] + [c]], first, freeEnt + 1, occ + {i})
  {
    ModOfDecomposition(c * MaxCodes + ent, MaxCodes, c, ent);
    assert i !in occ;
  }

  lemma HashEmpty(h: seq<int>, ct: seq<int>, strings: seq<seq<int>>, first: int)
    requires |h| == HSIZE && |ct| == HSIZE && |strings| == first && 0 <= first
    requires forall s :: 0 <= s < HSIZE ==> h[s] == -1
    ensures HashOk(h, ct, strings, first, first, {})
  {
  }

  // ---------------------------------------------------------------------
  // The bit accumulator

  /** The packed bytes `payload` followed by the `b` low bits of `acc`
      are the codes `em`, least significant bit first. */
  ghost predicate Packs(payload: seq<Byte>, acc: int, b: int, em: seq<Emit>)
  {
    && 0 <= b && 0 <= acc < Pow2(b)
    && BytesBits(payload) + CodeBits(acc, b) == PackCodes(em)
  }

  /** The accumulator arithmetic of `output`: masking keeps the pending
      bits, and or-ing the shifted code adds it above them. */
  lemma MergeValue(acc: nat, b: nat, code: nat)
    requires b < |Masks| && acc < Pow2(b)
    ensures And(acc, Masks[b]) == acc
    ensures (if b > 0 then Or(acc, Shl(code, b)) else code) == acc + Shl(code, b)
  {
    ShlIsMul(code, b);
    var p := Pow2(b);
    MaskKeeps(acc, b);
    MulMonotone(0, code, p);
    if b > 0 {
      OrDisjoint(acc, code, b);
    } else {
      assert acc == 0 && p == 1;
    }
  }


  /** Adding a code above the pending bits. */
  lemma AppendCode(payload: seq<Byte>, acc: nat, b: nat, em: seq<Emit>, code: nat, w: nat, v: int, b': int, em': seq<Emit>)
    requires Packs(payload, acc, b, em) && code < Pow2(w)
    requires v == acc + Shl(code, b) && b' == b + w && em' == em + [Emit(code, w)]
    ensures Packs(payload, v, b', em')
  {
    ShlIsMul(code, b);
    AppendBits(payload, acc, b, em, code, w);
    AppendBound(acc, b, code, w);
  }

  lemma AppendBits(payload: seq<Byte>, acc: nat, b: nat, em: seq<Emit>, code: nat, w: nat)
    requires acc < Pow2(b) && BytesBits(payload) + CodeBits(acc, b) == PackCodes(em)
    ensures BytesBits(payload) + CodeBits(acc + code * Pow2(b), b + w) == PackCodes(em + [Emit(code, w)])
  {
    var em1 := em + [Emit(code, w)];
    CodeBitsJoin(acc, code, b, w);
    assert em1[..|em|] == em;
  }

  lemma AppendBound(acc: nat, b: nat, code: nat, w: nat)
    requires acc < Pow2(b) && code < Pow2(w)
    ensures 0 <= acc + code * Pow2(b) < Pow2(b + w)
  {
    var pb, pw := Pow2(b), Pow2(w);
    Pow2Add(b, w);
    MulMonotone(0, code, pb);
    PlaceBound(acc, code, pb, pw);
  }

  /** A digit below `pb` plus `code` units of `pb` stays below `pw * pb`
      when `code` is below `pw`. */
  lemma PlaceBound(acc: int, code: int, pb: int, pw: int)
    requires 0 <= acc < pb && 0 <= code < pw
    ensures acc + code * pb < pb * pw
  {
    MulMonotone(code + 1, pw, pb);
    assert (code + 1) * pb == code * pb + pb;
  }

  /** Moving the low byte of the pending bits into the payload. */
  lemma ShiftOutByte(payload: seq<Byte>, acc: nat, b: nat, em: seq<Emit>)
    requires 8 <= b && Packs(payload, acc, b, em)
    ensures Packs(payload + [acc % 256], acc / 256, b - 8, em)
  {
    assert Pow2(8) == 256 by { MasksAreLowBits(8); }
    Pow2Add(8, b - 8);
    assert acc % 256 + acc / 256 * Pow2(8) == acc;
    CodeBitsJoin(acc % 256, acc / 256, 8, b - 8);
    BytesBitsSnoc(payload, acc % 256);
    var lo, hi := CodeBits(acc % 256, 8), CodeBits(acc / 256, b - 8);
    assert CodeBits(acc, b) == lo + hi;
    assert BytesBits(payload + [acc % 256]) + hi == BytesBits(payload) + (lo + hi);
  }

  /** One turn of the loop that moves whole bytes out: `cur_accum & 0xff`
      goes to the packet and the accumulator shifts down by 8. */
  lemma DrainStep(payload: seq<Byte>, acc: int, b: int, em: seq<Emit>)
    requires 8 <= b && Packs(payload, acc, b, em)
    ensures Packs(payload + [ToUint8(And(acc, 0xff))], acc / 256, b - 8, em)
  {
    LowByte(acc);
    ShiftOutByte(payload, acc, b, em);
  }

  /** The turn of the loop at the End code that writes the last, partial
      byte: afterwards the payload is the codes padded to a whole byte. */
  lemma FinalStep(payload: seq<Byte>, acc: int, b: int, em: seq<Emit>)
    requires 0 < b < 8 && Packs(payload, acc, b, em)
    ensures acc / 256 == 0
    ensures Padded(payload + [ToUint8(And(acc, 0xff))], em)
  {
    LowByte(acc);
    LastByte(payload, acc, b, em);
  }

  /** The last, partial byte: the remaining bits padded with zeros. */
  lemma LastByte(payload: seq<Byte>, acc: nat, b: nat, em: seq<Emit>)
    requires 0 < b < 8 && Packs(payload, acc, b, em)
    ensures acc < 256 && acc / 256 == 0
    ensures BytesBits(payload + [acc % 256]) == PadToByte(PackCodes(em))
  {
    SmallByte(acc, b);
    var pc := PackCodes(em);
    var last: Byte := acc % 256;
    LastByteBits(payload, last, b);
    assert |pc| == 8 * |payload| + b;
    PadLength(|payload|, b, |pc|);
  }

  lemma PadLength(n: nat, b: nat, l: nat)
    requires 0 < b < 8 && l == 8 * n + b
    ensures (8 - l % 8) % 8 == 8 - b
  {
  }

  lemma LastByteBits(payload: seq<Byte>, last: Byte, b: nat)
    requires b < 8 && last < Pow2(b)
    ensures BytesBits(payload + [last]) == BytesBits(payload) + CodeBits(last, b) + seq(8 - b, _ => false)
  {
    BitsOfLastByte(last, b);
    BytesBitsSnoc(payload, last);
  }

  lemma SmallByte(acc: nat, b: nat)
    requires b < 8 && acc < Pow2(b)
    ensures acc < 256 && acc % 256 == acc && acc / 256 == 0
  {
    Pow2Mono(b, 8);
    assert Pow2(8) == 256 by { MasksAreLowBits(8); }
  }

  lemma BitsOfLastByte(acc: nat, b: nat)
    requires b < 8 && acc < Pow2(b)
    ensures CodeBits(acc, 8) == CodeBits(acc, b) + seq(8 - b, _ => false)
  {
    CodeBitsJoin(acc, 0, b, 8 - b);
    assert acc + 0 * Pow2(b) == acc;
    assert b + (8 - b) == 8;
    CodeBitsZero(8 - b);
  }

  lemma NoPendingBits(payload: seq<Byte>, acc: nat, em: seq<Emit>)
    requires BytesBits(payload) + CodeBits(acc, 0) == PackCodes(em)
    ensures Padded(payload, em)
  {
    assert BytesBits(payload) == PackCodes(em);
    assert |PackCodes(em)| % 8 == 0;
  }

  /** The prefix code is never the Clear or the End code. */
  lemma DictEntIsData(minSize: nat, em: seq<Emit>, d: Dec, strings: seq<seq<int>>, freeEnt: int, ent: int, nBits: nat, done: seq<int>)
    requires DictOk(minSize, em, d, strings, freeEnt, ent, nBits, done)
    ensures ent != Pow2(minSize) && ent != Pow2(minSize) + 1
  {
    EntIsData(minSize, strings, ent);
  }

  /** The width never grows past 12 bits: at 12 bits the limit is 4096,
      which `freeEnt` never exceeds. */
  lemma WidthBound(nBits: nat, freeEnt: int)
    requires nBits <= MaxBits && freeEnt <= MaxCodes
    ensures nBits <= NextWidth(nBits, freeEnt) <= MaxBits
  {
  }

  /** The initial width `b` holds the Clear code, and the first free code
      does not make it grow. */
  lemma StartWidth(b: nat)
    requires 3 <= b <= 9
    ensures Pow2(b) == 2 * Pow2(b - 1) && 4 <= Pow2(b - 1) <= 256
    ensures MaxCodeFor(b) == Pow2(b) - 1 && Pow2(b - 1) + 2 <= MaxCodeFor(b)
  {
    Pow2Mono(2, b - 1);
    Pow2Mono(b - 1, 8);
    Pow2Facts();
  }

  // ---------------------------------------------------------------------
  // The encoder

  /** A snapshot of the fields that writing bits and bytes leaves alone. */
  datatype Coding = Coding(remaining: int, curPixel: int, gInitBits: int, clearCode: int, eofCode: int,
                           nBits: int, maxcode: int, clearFlg: bool, freeEnt: int,
                           strings: seq<seq<int>>, dec: Dec, occ: set<int>, outStart: seq<Byte>)

  class LZWEncoder {
    const imgW: int
    const imgH: int
    const pixAry: seq<int>
    const initCodeSize: int

    /** The packet being filled, and the two halves of the hash table,
        a key `(c << 12) + ent` and the code of that string. */
    const accum: array<Byte>
    const htab: array<int>
    const codetab: array<int>

    var curAccum: int
    var curBits: int
    var nBits: int
    var maxcode: int
    var clearFlg: bool
    var remaining: int
    var curPixel: int
    var aCount: int

    // Assigned by Compress; the source leaves these undeclared, so they
    // live in the global scope there.
    var gInitBits: int
    var clearCode: int
    var eofCode: int
    var freeEnt: int

    /** Every code written, with its width. */
    ghost var emitted: seq<Emit>
    /** Every byte the codes were packed into, and those already written
        out as sub-blocks. */
    ghost var payload: seq<Byte>
    ghost var flushed: seq<Byte>
    /** The output stream before the first sub-block. */
    ghost var outStart: seq<Byte>
    /** The string of each code below `freeEnt`. */
    ghost var strings: seq<seq<int>>
    /** The reference decoder after reading `emitted`. */
    ghost var dec: Dec
    /** The occupied hash slots. */
    ghost var occ: set<int>

    constructor (width: int, height: int, pixels: seq<int>, colorDepth: int)
      ensures imgW == width && imgH == height && pixAry == pixels && initCodeSize == Max(2, colorDepth)
      ensures fresh(accum) && fresh(htab) && fresh(codetab)
      ensures accum as object != htab && accum as object != codetab && htab != codetab
      ensures accum.Length == 256 && htab.Length == HSIZE && codetab.Length == HSIZE
      ensures curAccum == 0 && curBits == 0 && !clearFlg
      ensures remaining == width * height && curPixel == 0
    {
      imgW := width;
      imgH := height;
      pixAry := pixels;
      initCodeSize := Max(2, colorDepth);
      accum := new Byte[256](_ => 0);
      htab := new int[HSIZE](_ => 0);
      codetab := new int[HSIZE](_ => 0);
      curAccum := 0;
      curBits := 0;
      clearFlg := false;
      remaining := width * height;
      curPixel := 0;
    }

    /** The pixels the encoder reads, in order. */
    function Stream(): seq<int>
      requires imgW * imgH >= 0
    {
      PixelStream(pixAry, imgW * imgH)
    }

    ghost predicate Sound(outs: ByteArray)
      reads outs, outs.Repr
    {
      && accum.Length == 256 && htab.Length == HSIZE && codetab.Length == HSIZE
      && outs.Valid()
      && this !in outs.Repr && accum !in outs.Repr && htab !in outs.Repr && codetab !in outs.Repr
      && accum as object != htab && accum as object != codetab && htab != codetab
    }

    /** The output holds the full 254-byte packets written so far; the
        packet buffer holds the bytes packed since. */
    ghost predicate Blocking(outs: ByteArray)
      reads this`aCount, this`flushed, this`payload, this`outStart, accum, outs
    {
      && 0 <= aCount < MaxBlock && aCount <= accum.Length
      && |flushed| % MaxBlock == 0
      && payload == flushed + accum[..aCount]
      && outs.Contents == outStart + Blocks(flushed)
    }

    /** The packed bytes followed by the `curBits` pending bits of the
        accumulator are the codes written, least significant bit first. */
    ghost predicate Packed()
      reads this`payload, this`curAccum, this`curBits, this`emitted
    {
      Packs(payload, curAccum, curBits, emitted)
    }

    ghost predicate Widths()
      reads this`gInitBits, this`nBits, this`maxcode, this`clearCode, this`eofCode
    {
      && 3 <= gInitBits <= 9 && gInitBits <= nBits <= MaxBits && maxcode == MaxCodeFor(nBits)
      && clearCode == Pow2(gInitBits - 1) && eofCode == clearCode + 1
    }

    /** The coder's state apart from the bit accumulator and the packet. */
    ghost function Coder(): Coding
      reads this`remaining, this`curPixel, this`gInitBits, this`clearCode, this`eofCode, this`nBits, this`maxcode
      reads this`clearFlg, this`freeEnt, this`strings, this`dec, this`occ, this`outStart
    {
      Coding(remaining, curPixel, gInitBits, clearCode, eofCode, nBits, maxcode, clearFlg, freeEnt, strings, dec, occ, outStart)
    }

    twostate predicate KeepsPixels()
      reads this
    {
      remaining == old(remaining) && curPixel == old(curPixel)
    }

    twostate predicate KeepsTables()
      reads this
    {
      && gInitBits == old(gInitBits) && clearCode == old(clearCode) && eofCode == old(eofCode)
      && strings == old(strings) && dec == old(dec) && occ == old(occ) && outStart == old(outStart)
    }

    twostate predicate KeepsBits()
      reads this
    {
      && curAccum == old(curAccum) && curBits == old(curBits) && emitted == old(emitted)
      && aCount == old(aCount) && payload == old(payload) && flushed == old(flushed)
    }

    /** The next pixel, or EOF once `remaining` is 0; `pix & 0xff` keeps the
        low byte, which for an integer is its value modulo 256. */
    method NextPixel() returns (pix: int)
      modifies this`remaining, this`curPixel
      ensures old(remaining) == 0 ==> pix == EOF && remaining == 0 && curPixel == old(curPixel)
      ensures old(remaining) != 0 ==>
        && remaining == old(remaining) - 1 && curPixel == old(curPixel) + 1
        && pix == ToUint8(ElemOrZero(pixAry, old(curPixel)))
    {
      if remaining == 0 {
        return EOF;
      }
      remaining := remaining - 1;
      var p := ElemOrZero(pixAry, curPixel);
      curPixel := curPixel + 1;
      return ToUint8(p);
    }

    /** Adds a byte to the packet; a packet of 254 bytes is written out. */
    method CharOut(c: int, outs: ByteArray)
      requires Sound(outs) && Blocking(outs)
      modifies this, accum, outs.Repr
      ensures Sound(outs) && fresh(outs.Repr - old(outs.Repr))
      ensures Blocking(outs) && payload == old(payload) + [ToUint8(c)]
      ensures curAccum == old(curAccum) && curBits == old(curBits) && emitted == old(emitted)
      ensures Coder() == old(Coder())
    {
      accum[aCount] := ToUint8(c);
      aCount := aCount + 1;
      payload := payload + [ToUint8(c)];
      assert accum[..aCount] == old(accum[..aCount]) + [ToUint8(c)];
      if aCount >= MaxBlock {
        FlushChar(outs);
      }
    }

    /** Writes a non-empty packet as a sub-block: its length, then its bytes. */
    method FlushChar(outs: ByteArray)
      requires Sound(outs)
      requires 0 <= aCount <= MaxBlock && aCount <= accum.Length && |flushed| % MaxBlock == 0
      requires payload == flushed + accum[..aCount] && outs.Contents == outStart + Blocks(flushed)
      modifies this, outs.Repr
      ensures Sound(outs) && fresh(outs.Repr - old(outs.Repr))
      ensures aCount == 0 && flushed == payload && outs.Contents == outStart + Blocks(payload)
      ensures payload == old(payload) && curAccum == old(curAccum) && curBits == old(curBits) && emitted == old(emitted)
      ensures Coder() == old(Coder())
    {
      if aCount > 0 {
        var packet := accum[..aCount];
        outs.WriteByte(aCount);
        PrefixWritten(accum[..], aCount);
        outs.WriteBytes(accum[..], 0, aCount);
        aCount := 0;
        assert payload == flushed + packet;
        BlocksOfFullBlocks(flushed, packet);
        flushed := payload;
      } else {
        assert payload == flushed;
      }
    }
  
    /** Writes `code` in the current width: it goes into the accumulator
        above the pending bits, and whole bytes go to the packet. Then the
        width is reset after a Clear, or grows when the next code would not
        fit; after the End code the last partial byte and the packet are
        written out. */
    method Output(code: int, outs: ByteArray)
      requires Ready(outs) == true
      requires Widths() && 0 <= code < Pow2(nBits) && freeEnt <= MaxCodes
      modifies this, accum, outs.Repr
      ensures Sound(outs) && fresh(outs.Repr - old(outs.Repr)) && Widths()
      ensures KeepsPixels() && KeepsTables() && freeEnt == old(freeEnt)
      ensures emitted == old(emitted) + [Emit(code, old(nBits))]
      ensures nBits == (if old(clearFlg) then gInitBits else NextWidth(old(nBits), old(freeEnt))) && maxcode == MaxCodeFor(nBits)
      ensures !clearFlg
      ensures code != eofCode ==> Writing(outs) == true
      ensures code == eofCode ==> outs.Contents == outStart + Blocks(payload) && Padded(payload, emitted)
    {
      WriteCode(code, outs);
      if code == eofCode {
        FlushRest(outs);
      }
    }

    /** Packs `code` and moves the whole bytes to the packet, then updates
        the width. */
    method WriteCode(code: int, outs: ByteArray)
      requires Sound(outs) && Blocking(outs) && Packed() && curBits < 8
      requires Widths() && 0 <= code < Pow2(nBits) && freeEnt <= MaxCodes
      modifies this, accum, outs.Repr
      ensures Sound(outs) && fresh(outs.Repr - old(outs.Repr)) && Widths()
      ensures KeepsPixels() && KeepsTables() && freeEnt == old(freeEnt)
      ensures emitted == old(emitted) + [Emit(code, old(nBits))]
      ensures nBits == (if old(clearFlg) then gInitBits else NextWidth(old(nBits), old(freeEnt))) && maxcode == MaxCodeFor(nBits)
      ensures !clearFlg
      ensures Blocking(outs) && Packed() && curBits < 8
    {
      ghost var c0 := Coder();
      Accumulate(code);
      assert Blocking(outs) && Coder() == c0;
      DrainBytes(outs);
      UpdateWidth();
    }

    /** Puts `code` above the `curBits` pending bits of the accumulator. */
    method Accumulate(code: int)
      requires Packed() && curBits < 8
      requires 0 <= nBits && 0 <= code < Pow2(nBits)
      modifies this`curAccum, this`curBits, this`emitted
      ensures Packed()
      ensures curBits == old(curBits) + nBits
      ensures emitted == old(emitted) + [Emit(code, nBits)]
    {
      ghost var acc0, bits, em := curAccum, curBits, emitted;
      MergeValue(curAccum, curBits, code);
      curAccum := And(curAccum, Masks[curBits]);
      if curBits > 0 {
        curAccum := Or(curAccum, Shl(code, curBits));
      } else {
        curAccum := code;
      }
      emitted := emitted + [Emit(code, nBits)];
      curBits := curBits + nBits;
      AppendCode(payload, acc0, bits, em, code, nBits, curAccum, curBits, emitted);
    }

    /** Sends the low byte of the accumulator to the packet and drops it
        from the accumulator. */
    method ShiftByte(outs: ByteArray)
      requires Sound(outs) && Blocking(outs) && 0 <= curAccum
      modifies this, accum, outs.Repr
      ensures Sound(outs) && fresh(outs.Repr - old(outs.Repr))
      ensures Blocking(outs) && payload == old(payload) + [ToUint8(And(old(curAccum), 0xff))]
      ensures curAccum == old(curAccum) / 256 && curBits == old(curBits) - 8 && emitted == old(emitted)
      ensures Coder() == old(Coder())
    {
      CharOut(And(curAccum, 0xff), outs);
      curAccum := curAccum / 256;
      curBits := curBits - 8;
    }

    /** Moves every whole byte of the accumulator to the packet, lowest
        byte first, leaving fewer than 8 pending bits. */
    method DrainBytes(outs: ByteArray)
      requires Sound(outs) && Blocking(outs) && Packed()
      modifies this, accum, outs.Repr
      ensures Sound(outs) && fresh(outs.Repr - old(outs.Repr))
      ensures Blocking(outs) && Packed() && curBits < 8
      ensures emitted == old(emitted)
      ensures Coder() == old(Coder())
    {
      while curBits >= 8
        invariant Sound(outs) && fresh(outs.Repr - old(outs.Repr))
        invariant Blocking(outs) && Packed()
        invariant emitted == old(emitted)
        invariant Coder() == old(Coder())
        decreases curBits
      {
        DrainStep(payload, curAccum, curBits, emitted);
        ShiftByte(outs);
      }
    }

    /** After a Clear the width goes back to its initial value; otherwise it
        grows by one bit when the next free code does not fit, with the
        table-full bound 4096 at 12 bits. */
    method UpdateWidth()
      requires Widths() && freeEnt <= MaxCodes
      modifies this`nBits, this`maxcode, this`clearFlg
      ensures Widths()
      ensures KeepsPixels() && KeepsTables() && KeepsBits() && freeEnt == old(freeEnt)
      ensures nBits == (if old(clearFlg) then gInitBits else NextWidth(old(nBits), old(freeEnt))) && maxcode == MaxCodeFor(nBits)
      ensures !clearFlg
    {
      if freeEnt > maxcode || clearFlg {
        if clearFlg {
          nBits := gInitBits;
          maxcode := MaxCode(nBits);
          clearFlg := false;
        } else {
          nBits := nBits + 1;
          if nBits == MaxBits {
            maxcode := Pow2(MaxBits);
            Pow2Facts();
          } else {
            maxcode := MaxCode(nBits);
          }
        }
      }
    }

    /** At the End code: the rest of the accumulator and then the packet
        are written out. */
    method FlushRest(outs: ByteArray)
      requires Sound(outs) && Blocking(outs) && Packed() && curBits < 8
      modifies this, accum, outs.Repr
      ensures Sound(outs) && fresh(outs.Repr - old(outs.Repr))
      ensures aCount == 0 && outs.Contents == outStart + Blocks(payload)
      ensures Padded(payload, emitted) && emitted == old(emitted)
      ensures Coder() == old(Coder())
    {
      PadLastByte(outs);
      FlushChar(outs);
    }

    /** After the End code: writes the pending bits as a last byte padded
        with zeros. */
    method PadLastByte(outs: ByteArray)
      requires Sound(outs) && Blocking(outs) && Packed() && curBits < 8
      modifies this, accum, outs.Repr
      ensures Sound(outs) && fresh(outs.Repr - old(outs.Repr))
      ensures Blocking(outs) && Padded(payload, emitted) && emitted == old(emitted)
      ensures Coder() == old(Coder())
    {
      if curBits == 0 {
        NoPendingBits(payload, curAccum, emitted);
      }
      while curBits > 0
        invariant Sound(outs) && fresh(outs.Repr - old(outs.Repr))
        invariant Blocking(outs) && curBits < 8 && emitted == old(emitted)
        invariant if curBits > 0 then Packed() else Padded(payload, emitted)
        invariant Coder() == old(Coder())
        decreases curBits
      {
        FinalStep(payload, curAccum, curBits, emitted);
        ShiftByte(outs);
      }
    }

    /** Empties the first `hsize` slots of the hash table; writes past the
        end of the typed array are ignored. */
    method ClearHash(hsize: int)
      modifies htab
      ensures forall s :: 0 <= s < htab.Length ==> htab[s] == (if s < hsize then -1 else old(htab[s]))
    {
      var i := 0;
      while i < hsize
        invariant 0 <= i <= Max(hsize, 0)
        invariant forall s :: 0 <= s < htab.Length ==> htab[s] == (if s < i then -1 else old(htab[s]))
      {
        if i < htab.Length {
          htab[i] := -1;
        }
        i := i + 1;
      }
    }

    /** Starts a new string table: empties the hash table, resets the next
        code and writes a Clear code, after which the width is reset. */
    method ClearBlock(outs: ByteArray)
      requires Sound(outs) && Blocking(outs) && Packed() && curBits < 8
      requires Widths() && clearCode < Pow2(nBits)
      modifies this, accum, htab, outs.Repr
      ensures fresh(outs.Repr - old(outs.Repr))
      ensures KeepsPixels() && KeepsTables()
      ensures forall s :: 0 <= s < HSIZE ==> htab[s] == -1
      ensures freeEnt == clearCode + 2 && nBits == gInitBits
      ensures emitted == old(emitted) + [Emit(clearCode, old(nBits))]
      ensures Writing(outs) == true
    {
      ClearHash(HSIZE);
      freeEnt := clearCode + 2;
      clearFlg := true;
      Pow2Mono(gInitBits - 1, 8);
      Pow2Facts();
      Output(clearCode, outs);
    }
  
    /** `hshift`: 8 less the number of doublings of 5003 below 65536. */
    method HashShift() returns (hshift: int)
      ensures hshift == 4
    {
      hshift := 0;
      var fcode := HSIZE;
      while fcode < 65536
        invariant 0 <= hshift <= 4 && fcode == HSIZE * Pow2(hshift)
      {
        hshift := hshift + 1;
        fcode := fcode * 2;
      }
      Pow2Facts();
      assert Pow2(3) == 8;
      hshift := 8 - hshift;
    }

    /** The hash search of `compress`: the first probe `i0`, then, while the
        slot holds another key, probes `disp` slots further back, wrapping
        around, until the key or an empty slot is found. Some slot is empty,
        so the search ends. */
    method Lookup(fcode: int, i0: int, ghost occ: set<int>) returns (found: bool, i: int)
      requires htab.Length == HSIZE && 0 <= i0 < HSIZE && 0 <= fcode
      requires forall s :: 0 <= s < HSIZE && htab[s] >= 0 ==> s in occ
      requires |occ| < HSIZE
      ensures 0 <= i < HSIZE
      ensures found ==> htab[i] == fcode
      ensures !found ==> htab[i] < 0
    {
      i := i0;
      if htab[i] == fcode {
        return true, i;
      } else if htab[i] >= 0 {
        var disp := HSIZE - i;
        if i == 0 {
          disp := 1;
        }
        ghost var k: nat := 0;
        while true
          invariant 0 < disp < HSIZE && 0 <= i < HSIZE && k < HSIZE
          invariant i == ProbeSlot(i0, disp, k)
          invariant forall j :: 0 <= j <= k ==> ProbeSlot(i0, disp, j) in occ
          decreases HSIZE - k
        {
          ProbesBoundedByOccupancy(i0, disp, k, occ);
          ProbeNext(i0, disp, k, i);
          i := i - disp;
          if i < 0 {
            i := i + HSIZE;
          }
          k := k + 1;
          if htab[i] == fcode {
            return true, i;
          }
          if htab[i] < 0 {
            return false, i;
          }
        }
      }
      return false, i;
    }

    /** The pixels are indices below `2^minSize`. */
    ghost predicate PixelsFit(minSize: nat)
      requires imgW * imgH >= 0
    {
      forall k :: 0 <= k < imgW * imgH ==> Stream()[k] < Pow2(minSize)
    }

    /** The state `compress` keeps from one pixel to the next: the output
        so far is framed, the accumulator holds the pending bits, and the
        string table, read through the decoder and through the hash table,
        is in step with the prefix code `ent` and the pixels `done`. */
    ghost predicate Compressing(outs: ByteArray, minSize: nat, ent: int, done: seq<int>)
      reads this`curAccum, this`curBits, this`nBits, this`maxcode, this`clearFlg, this`gInitBits
      reads this`clearCode, this`eofCode, this`freeEnt, this`aCount, this`emitted, this`payload
      reads this`flushed, this`outStart, this`strings, this`dec, this`occ
      reads accum, htab, codetab, outs, outs.Repr
    {
      && Writing(outs) && gInitBits == minSize + 1
      && DictOk(minSize, emitted, dec, strings, freeEnt, ent, nBits, done)
      && HashOk(htab[..], codetab[..], strings, clearCode + 2, freeEnt, occ)
    }

    /** The state in which `output` may be called: the output is framed,
        the packet and the accumulator hold the codes written. */
    ghost predicate Ready(outs: ByteArray)
      reads this`curAccum, this`curBits, this`aCount, this`emitted, this`payload
      reads this`flushed, this`outStart, accum, outs, outs.Repr
    {
      Sound(outs) && Blocking(outs) && Packed() && curBits < 8
    }

    /** The state in which `output` may be called with a code other than
        the End code. */
    ghost predicate Writing(outs: ByteArray)
      reads this`curAccum, this`curBits, this`nBits, this`maxcode, this`clearFlg, this`gInitBits
      reads this`clearCode, this`eofCode, this`aCount, this`emitted, this`payload
      reads this`flushed, this`outStart, accum, outs, outs.Repr
    {
      Ready(outs) && Widths() && !clearFlg
    }

    /** `encode`: the minimum code size byte, the compressed pixels as data
        sub-blocks, and the block terminator. What is appended is
        table-based image data that the reference decoder reads back as the
        pixels, with nothing left over. */
    method Encode(outs: ByteArray)
      requires Sound(outs) && curAccum == 0 && curBits == 0
      requires 2 <= initCodeSize <= 8 && imgW * imgH >= 1 && PixelsFit(initCodeSize)
      modifies this, accum, htab, codetab, outs.Repr
      ensures Sound(outs) && fresh(outs.Repr - old(outs.Repr))
      ensures outs.Contents == old(outs.Contents) + [initCodeSize] + Blocks(payload) + [0]
      ensures DecodeImageData(outs.Contents[|old(outs.Contents)|..]) == Some((Stream(), []))
    {
      outs.WriteByte(initCodeSize);
      remaining := imgW * imgH;
      curPixel := 0;
      Compress(initCodeSize + 1, outs);
      outs.WriteByte(0);
      ImageDataRoundTrip(initCodeSize, payload, Stream());
      assert outs.Contents[|old(outs.Contents)|..] == [initCodeSize] + Blocks(payload) + [0];
    }

    /** LZW-compresses the pixels with initial width `initBits` and writes
        the codes as data sub-blocks: the output grows by the packed bytes
        in sub-blocks of at most 254, and those bytes, read by the reference
        decoder with minimum code size `initBits - 1`, give back the pixels. */
    method Compress(initBits: int, outs: ByteArray)
      requires Sound(outs) && curAccum == 0 && curBits == 0
      requires 3 <= initBits <= 9
      requires imgW * imgH >= 1 && remaining == imgW * imgH && curPixel == 0
      requires PixelsFit(initBits - 1)
      modifies this, accum, htab, codetab, outs.Repr
      ensures Sound(outs) && fresh(outs.Repr - old(outs.Repr))
      ensures outs.Contents == old(outs.Contents) + Blocks(payload)
      ensures DecodeBits(BytesBits(payload), Reset(initBits - 1, [])) == Some(Stream())
      ensures |emitted| >= 2 && emitted[0] == Emit(Pow2(initBits - 1), initBits)
      ensures emitted[|emitted| - 1].code == Pow2(initBits - 1) + 1
      ensures Padded(payload, emitted)
    {
      ghost var n := imgW * imgH;
      var ent, hshift := Start(initBits, outs);
      var more := true;
      while more
        invariant 0 <= remaining && remaining + curPixel == n && 1 <= curPixel && hshift == 4
        invariant Compressing(outs, initBits - 1, ent, Stream()[..curPixel]) == true
        invariant fresh(outs.Repr - old(outs.Repr)) && outStart == old(outs.Contents)
        invariant !more ==> remaining == 0
        invariant |emitted| >= 1 && emitted[0] == Emit(Pow2(initBits - 1), initBits)
        decreases remaining, more
      {
        ent, more := Absorb(ent, hshift, outs, initBits - 1);
      }
      assert Stream()[..curPixel] == Stream();
      Finish(ent, outs, initBits - 1, Stream());
    }

    /** One round of the main loop: the next pixel, if there is one, is
        added to the prefix string. */
    method Absorb(ent: int, hshift: int, outs: ByteArray, ghost minSize: nat) returns (ent': int, more: bool)
      requires imgW * imgH >= 1 && 0 <= remaining && remaining + curPixel == imgW * imgH && 1 <= curPixel
      requires hshift == 4 && PixelsFit(minSize)
      requires Compressing(outs, minSize, ent, Stream()[..curPixel]) == true
      modifies this, accum, htab, codetab, outs.Repr
      ensures fresh(outs.Repr - old(outs.Repr)) && outStart == old(outStart)
      ensures |old(emitted)| >= 1 ==> |emitted| >= 1 && emitted[0] == old(emitted)[0]
      ensures 0 <= remaining && remaining + curPixel == imgW * imgH && 1 <= curPixel
      ensures more ==> remaining < old(remaining)
      ensures !more ==> remaining == 0 && remaining == old(remaining)
      ensures Compressing(outs, minSize, ent', Stream()[..curPixel]) == true
    {
      ghost var done := Stream()[..curPixel];
      var c := NextPixel();
      if c == EOF {
        return ent, false;
      }
      PixelRead(c, minSize, done);
      ent' := Advance(c, ent, hshift, outs, minSize, done);
      more := true;
    }

    /** The pixel just read extends the pixels consumed, and fits the
        initial code size. */
    lemma PixelRead(c: int, minSize: nat, done: seq<int>)
      requires imgW * imgH >= 1 && 1 <= curPixel <= imgW * imgH && PixelsFit(minSize)
      requires c == ToUint8(ElemOrZero(pixAry, curPixel - 1)) && done == Stream()[..curPixel - 1]
      ensures Stream()[..curPixel] == done + [c] && 0 <= c < Pow2(minSize)
    {
      assert Stream()[curPixel - 1] == c;
    }

    /** The set-up of `compress`: the widths and the special codes, an empty
        packet, the first pixel as prefix code, an empty hash table and a
        Clear code. */
    method Start(initBits: int, outs: ByteArray) returns (ent: int, hshift: int)
      requires Sound(outs) && curAccum == 0 && curBits == 0
      requires 3 <= initBits <= 9
      requires imgW * imgH >= 1 && remaining == imgW * imgH && curPixel == 0
      requires PixelsFit(initBits - 1)
      modifies this, accum, htab, outs.Repr
      ensures fresh(outs.Repr - old(outs.Repr)) && outStart == old(outs.Contents)
      ensures hshift == 4 && remaining == old(remaining) - 1 && curPixel == 1
      ensures emitted == [Emit(Pow2(initBits - 1), initBits)]
      ensures Compressing(outs, initBits - 1, ent, Stream()[..curPixel]) == true
    {
      SetUp(initBits, outs);
      ent := NextPixel();
      assert Stream()[..curPixel] == [ent];
      hshift := HashShift();
      Open(initBits, ent, outs);
    }

    /** The state `SetUp` leaves: nothing written yet, the widths and the
        special codes for `initBits`, and the literal strings. */
    ghost predicate Opened(initBits: int, outs: ByteArray)
      reads this`curAccum, this`curBits, this`nBits, this`maxcode, this`clearFlg, this`gInitBits
      reads this`clearCode, this`eofCode, this`freeEnt, this`aCount, this`emitted, this`payload
      reads this`flushed, this`outStart, this`strings, this`dec, this`occ
      reads accum, htab, codetab, outs, outs.Repr
    {
      && Sound(outs) && 3 <= initBits <= 9 && curBits == 0
      && gInitBits == initBits && nBits == initBits && !clearFlg && maxcode == MaxCodeFor(initBits)
      && clearCode == Pow2(initBits - 1) && eofCode == clearCode + 1 && freeEnt == clearCode + 2
      && clearCode < Pow2(nBits) && Widths() && NextWidth(initBits, freeEnt) == initBits && freeEnt <= MaxCodes
      && Blocking(outs) && Packed() && aCount == 0 && emitted == [] && outStart == outs.Contents
      && strings == InitTable(initBits - 1) && occ == {} && dec == Reset(initBits - 1, [])
    }

    /** `cl_hash(hsize_reg)` and `output(ClearCode)`: an empty hash table
        and the Clear code as the first code, with `ent` as prefix. */
    method Open(initBits: int, ent: int, outs: ByteArray)
      requires Opened(initBits, outs) == true && 0 <= ent < Pow2(initBits - 1)
      modifies this, accum, htab, outs.Repr
      ensures fresh(outs.Repr - old(outs.Repr)) && outStart == old(outs.Contents)
      ensures remaining == old(remaining) && curPixel == old(curPixel)
      ensures emitted == [Emit(Pow2(initBits - 1), initBits)]
      ensures Compressing(outs, initBits - 1, ent, [ent]) == true
    {
      ClearHash(HSIZE);
      Output(clearCode, outs);
      Started(outs, initBits - 1, ent);
    }

    /** The state right after the first Clear code: the string table holds
        the literals, the hash table is empty and the first pixel is the
        prefix code. */
    lemma Started(outs: ByteArray, minSize: nat, ent: int)
      requires Writing(outs) == true && 2 <= minSize <= 8 && gInitBits == minSize + 1 && nBits == minSize + 1
      requires clearCode == Pow2(minSize) && freeEnt == clearCode + 2 && emitted == [Emit(clearCode, minSize + 1)]
      requires strings == InitTable(minSize) && occ == {} && dec == Reset(minSize, [])
      requires 0 <= ent < Pow2(minSize) && forall s :: 0 <= s < HSIZE ==> htab[s] == -1
      ensures Compressing(outs, minSize, ent, [ent]) == true
    {
      DictStart(minSize, ent);
      HashEmpty(htab[..], codetab[..], strings, clearCode + 2);
    }

    /** The assignments at the head of `compress`: the widths, the Clear and
        End codes, the first free code and an empty packet. */
    method SetUp(initBits: int, outs: ByteArray)
      requires Sound(outs) && curAccum == 0 && curBits == 0
      requires 3 <= initBits <= 9
      modifies this`gInitBits, this`clearFlg, this`nBits, this`maxcode, this`clearCode, this`eofCode, this`freeEnt, this`aCount
      modifies this`emitted, this`payload, this`flushed, this`outStart, this`strings, this`occ, this`dec
      ensures Opened(initBits, outs) == true
    {
      gInitBits := initBits;
      clearFlg := false;
      nBits := gInitBits;
      maxcode := MaxCode(nBits);
      clearCode := Shl(1, initBits - 1);
      eofCode := clearCode + 1;
      freeEnt := clearCode + 2;
      aCount := 0;
      ShlIsMul(1, initBits - 1);
      StartWidth(initBits);
      OpenAccount(initBits - 1, outs);
    }

    /** The ghost account of an encoder that has written nothing: no codes,
        no bytes, the literal strings, and a decoder just reset. */
    ghost method OpenAccount(minSize: nat, outs: ByteArray)
      requires Sound(outs) && curAccum == 0 && curBits == 0 && aCount == 0
      modifies this`emitted, this`payload, this`flushed, this`outStart, this`strings, this`occ, this`dec
      ensures Blocking(outs) && Packed() && emitted == [] && outStart == outs.Contents
      ensures strings == InitTable(minSize) && occ == {} && dec == Reset(minSize, [])
    {
      emitted, payload, flushed, outStart := [], [], [], outs.Contents;
      strings, occ := InitTable(minSize), {};
      dec := Reset(minSize, []);
    }

    /** One pixel `c` of the main loop: if the string of `ent` followed by
        `c` is in the table, its code becomes the prefix code; otherwise the
        prefix code is written, and the new string enters the table or, when
        the table is full, a Clear code starts a new one. */
    method Advance(c: int, ent: int, hshift: int, outs: ByteArray, ghost minSize: nat, ghost done: seq<int>) returns (ent': int)
      requires Compressing(outs, minSize, ent, done) == true && hshift == 4 && 0 <= c < Pow2(minSize)
      modifies this, accum, htab, codetab, outs.Repr
      ensures fresh(outs.Repr - old(outs.Repr)) && outStart == old(outStart)
      ensures old(emitted) <= emitted
      ensures Compressing(outs, minSize, ent', done + [c]) == true
      ensures remaining == old(remaining) && curPixel == old(curPixel)
    {
      var fcode := Shl(c, MaxBits) + ent;
      var i := Xor(Shl(c, hshift), ent);
      Pow2Mono(minSize, 8);
      Pow2Facts();
      LookupBounds(c, ent, fcode, i);
      var found, j := Lookup(fcode, i, occ);
      if found {
        Matched(outs, minSize, ent, done, c, j);
        return codetab[j];
      }
      Extend(c, ent, j, fcode, outs, minSize, done);
      return c;
    }

    /** A key found in slot `j` names the string of `ent` followed by `c`,
        which becomes the prefix. */
    lemma Matched(outs: ByteArray, minSize: nat, ent: int, done: seq<int>, c: int, j: int)
      requires Compressing(outs, minSize, ent, done) == true && 0 <= c && 0 <= ent < MaxCodes
      requires 0 <= j < HSIZE && htab[j] == c * MaxCodes + ent
      ensures Compressing(outs, minSize, codetab[j], done + [c]) == true
    {
      HashMatch(htab[..], codetab[..], strings, clearCode + 2, freeEnt, occ, j, c, ent);
      DictMatch(minSize, emitted, dec, strings, freeEnt, ent, nBits, done, c, codetab[j]);
    }

    /** Writes the prefix code `ent` after a failed search that ended at the
        empty slot `i`; then the string of `ent` followed by `c` gets the
        next free code in slot `i`, or, with all 4096 codes in use, the
        table is cleared. */
    method Extend(c: int, ent: int, i: int, fcode: int, outs: ByteArray, ghost minSize: nat, ghost done: seq<int>)
      requires Compressing(outs, minSize, ent, done) == true && 0 <= c < Pow2(minSize)
      requires 0 <= i < HSIZE && htab[i] < 0 && fcode == c * MaxCodes + ent
      modifies this, accum, htab, codetab, outs.Repr
      ensures fresh(outs.Repr - old(outs.Repr)) && outStart == old(outStart)
      ensures old(emitted) <= emitted
      ensures Compressing(outs, minSize, c, done + [c]) == true
      ensures remaining == old(remaining) && curPixel == old(curPixel)
    {
      if freeEnt < MaxCodes {
        AddString(c, ent, i, fcode, outs, minSize, done);
      } else {
        Restart(c, ent, outs, minSize, done);
      }
    }

    /** `output(ent)` followed by `codetab[i] = free_ent++; htab[i] = fcode`. */
    method AddString(c: int, ent: int, i: int, fcode: int, outs: ByteArray, ghost minSize: nat, ghost done: seq<int>)
      requires Compressing(outs, minSize, ent, done) == true && 0 <= c < Pow2(minSize) && freeEnt < MaxCodes
      requires 0 <= i < HSIZE && htab[i] < 0 && fcode == c * MaxCodes + ent
      modifies this, accum, htab, codetab, outs.Repr
      ensures fresh(outs.Repr - old(outs.Repr)) && outStart == old(outStart)
      ensures old(emitted) <= emitted
      ensures Compressing(outs, minSize, c, done + [c]) == true
      ensures remaining == old(remaining) && curPixel == old(curPixel)
    {
      ghost var em0, d0, s0, f0, n0 := emitted, dec, strings, freeEnt, nBits;
      DictEntIsData(minSize, em0, d0, s0, f0, ent, n0, done);
      DictAdd(minSize, em0, d0, s0, f0, ent, n0, done, c);
      WidthBound(n0, f0);
      Output(ent, outs);
      label written:
      Insert(i, fcode, c, ent, minSize);
      KeepWriting@written(outs);
    }

    /** Puts the key `fcode` with the next free code into the empty slot
        `i`; the decoder, which has now read the prefix code, catches up. */
    method Insert(i: int, fcode: int, c: int, ent: int, ghost minSize: nat)
      requires htab.Length == HSIZE && codetab.Length == HSIZE && htab != codetab
      requires HashOk(htab[..], codetab[..], strings, clearCode + 2, freeEnt, occ)
      requires 0 <= i < HSIZE && htab[i] < 0 && fcode == c * MaxCodes + ent
      requires 0 <= c && 0 <= ent < freeEnt && ent < MaxCodes
      requires Run(Reset(minSize, []), emitted).Some?
      modifies htab, codetab, this`freeEnt, this`strings, this`dec, this`occ
      ensures freeEnt == old(freeEnt) + 1 && strings == old(strings) + [old(strings)[ent] + [c]]
      ensures dec == Run(Reset(minSize, []), emitted).value
      ensures HashOk(htab[..], codetab[..], strings, clearCode + 2, freeEnt, occ)
    {
      ghost var h0, ct0 := htab[..], codetab[..];
      codetab[i] := freeEnt;
      freeEnt := freeEnt + 1;
      htab[i] := fcode;
      HashInsert(h0, ct0, strings, clearCode + 2, freeEnt - 1, occ, i, c, ent);
      assert htab[..] == h0[i := fcode] && codetab[..] == ct0[i := freeEnt - 1];
      strings := strings + [strings[ent] + [c]];
      dec := Run(Reset(minSize, []), emitted).value;
      occ := occ + {i};
    }

    /** Writing state survives any change that leaves the fields it reads
        alone. */
    twostate lemma KeepWriting(outs: ByteArray)
      requires old(Writing(outs)) && old(allocated(outs.Repr))
      requires unchanged(this`curAccum, this`curBits, this`nBits, this`maxcode, this`clearFlg, this`gInitBits)
      requires unchanged(this`clearCode, this`eofCode, this`aCount, this`emitted, this`payload, this`flushed, this`outStart)
      requires unchanged(accum, outs) && unchanged(old(outs.Repr))
      ensures Writing(outs) == true
    {
    }

    /** `output(ent)` followed by `cl_block`: with all 4096 codes in use the
        prefix code is written, then a Clear code, and both tables start
        again. */
    method Restart(c: int, ent: int, outs: ByteArray, ghost minSize: nat, ghost done: seq<int>)
      requires Compressing(outs, minSize, ent, done) == true && 0 <= c < Pow2(minSize) && freeEnt == MaxCodes
      modifies this, accum, htab, codetab, outs.Repr
      ensures fresh(outs.Repr - old(outs.Repr)) && outStart == old(outStart)
      ensures old(emitted) <= emitted
      ensures Compressing(outs, minSize, c, done + [c]) == true
      ensures remaining == old(remaining) && curPixel == old(curPixel)
    {
      ghost var em0, d0, s0, f0, n0 := emitted, dec, strings, freeEnt, nBits;
      DictEntIsData(minSize, em0, d0, s0, f0, ent, n0, done);
      DictClear(minSize, em0, d0, s0, f0, ent, n0, done, c);
      Pow2Mono(minSize, 8);
      Pow2Facts();
      Output(ent, outs);
      ClearBlock(outs);
      Restarted(c, outs, minSize, done);
    }

    /** After the Clear code both string tables hold only the literals, and
        the pixel `c` is the prefix code. */
    ghost method Restarted(c: int, outs: ByteArray, minSize: nat, done: seq<int>)
      requires Writing(outs) == true && gInitBits == minSize + 1 && 2 <= minSize <= 8 && 0 <= c < Pow2(minSize)
      requires Run(Reset(minSize, []), emitted) == Some(Reset(minSize, done))
      requires freeEnt == clearCode + 2 && nBits == gInitBits
      requires forall s :: 0 <= s < HSIZE ==> htab[s] == -1
      modifies this`strings, this`occ, this`dec
      ensures Compressing(outs, minSize, c, done + [c]) == true
    {
      assert Widths();
      assert clearCode + 2 == Pow2(minSize) + 2 && nBits == minSize + 1;
      strings, occ := InitTable(minSize), {};
      dec := Reset(minSize, done);
      assert Writing(outs) == true;
      DictRestart(minSize, emitted, done, c);
      HashEmpty(htab[..], codetab[..], strings, clearCode + 2);
    }

    /** The end of `compress`: the last prefix code and the End code. The
        packed bytes are then all written, and they decode to `done`. */
    method Finish(ent: int, outs: ByteArray, ghost minSize: nat, ghost done: seq<int>)
      requires Compressing(outs, minSize, ent, done) == true
      modifies this, accum, outs.Repr
      ensures Sound(outs) && fresh(outs.Repr - old(outs.Repr)) && outStart == old(outStart)
      ensures outs.Contents == outStart + Blocks(payload)
      ensures DecodeBits(BytesBits(payload), Reset(minSize, [])) == Some(done)
      ensures emitted == old(emitted) + [Emit(ent, old(nBits)), Emit(Pow2(minSize) + 1, NextWidth(old(nBits), old(freeEnt)))]
      ensures Padded(payload, emitted)
      ensures remaining == old(remaining) && curPixel == old(curPixel)
    {
      ghost var em0, d0, s0, f0, n0 := emitted, dec, strings, freeEnt, nBits;
      ghost var n1 := NextWidth(nBits, freeEnt);
      DictEntIsData(minSize, em0, d0, s0, f0, ent, n0, done);
      WidthBound(n0, f0);
      EndFits(minSize, n1);
      assert ent != eofCode;
      Output(ent, outs);
      assert nBits == n1 && Widths();
      Output(eofCode, outs);
      DictFinish(minSize, em0, d0, s0, f0, ent, n0, done, emitted, payload);
    }
  }

  /** Image data made of a minimum code size, the sub-blocks of a payload
      and a terminator decodes to what the payload decodes to. */
  lemma ImageDataRoundTrip(minSize: nat, payload: seq<Byte>, px: seq<int>)
    requires 2 <= minSize <= 8
    requires DecodeBits(BytesBits(payload), Reset(minSize, [])) == Some(px)
    ensures DecodeImageData([minSize] + Blocks(payload) + [0]) == Some((px, []))
  {
    var data := [minSize] + Blocks(payload) + [0];
    assert data[1..] == Blocks(payload) + [0] + [];
    UnblockBlocks(payload, []);
  }

  /** The first probe and the key of a (pixel, prefix) pair: the key is
      `c * 4096 + ent` and the probe is a slot of the table. */
  lemma LookupBounds(c: int, ent: int, fcode: int, i: int)
    requires 0 <= c < 256 && 0 <= ent < MaxCodes
    requires fcode == Shl(c, MaxBits) + ent && i == Xor(Shl(c, 4), ent)
    ensures fcode == c * MaxCodes + ent && 0 <= i < HSIZE
  {
    ShlIsMul(c, MaxBits);
    ShlIsMul(c, 4);
    Pow2Facts();
    XorBound(Shl(c, 4), ent, MaxBits);
  }
}
