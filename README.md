# GIF encoder of `gif.worker.js`, modelled in Dafny

The web worker turns RGBA frames into an animated GIF89a stream. It has
four parts, and each one is modelled in its own module:

- `ByteArrays` (`byte_array.dfy`) models `ByteArray`. This is the output sink: a list
  of 4096-byte pages and a cursor. It is a class. Its ghost `Contents` is the
  byte sequence written so far, and `Valid()` ties it to the pages and the cursor.
- `LzwEncoding` (`lzw_encoder.dfy`) models `LZWEncoder`. This is the variable-length-code LZW
  compressor. It uses an open-addressing hash table of 5003 slots, a
  bit accumulator, and 254-byte data sub-blocks. It is a class over arrays,
  and each step of `compress` and `output` is an imperative method.
  Two plain-function modules support it:
  - `Bitwise` (`bitwise.dfy`) holds `&`, `|`, `^` and `<<` on naturals;
  - `Hashing` (`hashing.dfy`) holds the double-hashing probe sequence.
- `GifLzw` (`lzw_decoder.dfy`) is an independent reference reader for GIF image data:
  - the sub-blocks;
  - LSB-first code packing;
  - the LZW decompressor with its Clear and End codes.

  The encoder is proved against it: the bytes `encode` writes decode back to
  the frame's pixel indices.
- `NeuQuantPalette` (`neuquant.dfy`) models `NeuQuant` after learning. It covers:
  - setting up the network;
  - unbiasing it to byte values;
  - the selection sort on green and the green index;
  - the palette in neuron order;
  - the L1 nearest-neuron search `map`.
- `GifEncoding` (`gif_encoder.dfy`) models `GIFEncoder`. It is a class. It holds the frame
  settings and the first-frame flag. Its methods write each block through the
  sink and are proved to append exactly the bytes of a pure layout function.
  Lemmas then state each layout byte by byte.
  `AddFrame` is proved to write the blocks in the order GIF89a requires:
  1. logical screen descriptor, global colour table and NETSCAPE2.0 extension, on the first frame only;
  2. graphic control extension;
  3. image descriptor;
  4. local colour table, on later frames;
  5. image data that decodes back to the indexed pixels, each of which is
     an L1-nearest palette entry for its source pixel.

  `Finish` appends the trailer 0x3B.

As in the source, no method writes the `GIF89a` header. The stream starts
with the logical screen descriptor.

JavaScript semantics are written out:
- a typed-array store keeps `x mod 256` (`ToUint8`);
- reading past the end of an array gives 0 (`ElemOrZero`);
- `~~x` wraps to a signed 32-bit integer (`ToInt32`);
- `Math.round(ms / 10)` rounds half up (`RoundDelay`);
- `writeBytes(a, offset, length)` treats `length` as an exclusive end
  index, and treats a zero `length` as `a.length`.

## Model

| member | source | states |
|---|---|---|
| ByteArrays.ByteArray.constructor | gif.worker.js:600-604 | A new sink holds one empty page: page 0, cursor 0, no contents |
| ByteArrays.ByteArray.NewPage | gif.worker.js:613-616 | Appends a fresh page and resets the cursor; the bytes written so far are unchanged |
| ByteArrays.ByteArray.WriteByte | gif.worker.js:628-631 | Appends `val mod 256`; a new page is opened exactly when the current one is full |
| ByteArrays.ByteArray.WriteUTFBytes | gif.worker.js:633-637 | Appends each character code mod 256, in order |
| ByteArrays.ByteArray.WriteBytes | gif.worker.js:639-643 | Appends the elements from `offset` up to the exclusive end `length` (or `a.length` when `length` is 0), mod 256, with 0 past the array's end |
| ByteArrays.BytesWritten | gif.worker.js:640-642 | The written range has `max(0, end - offset)` bytes, and each is the stored byte of the element at its position |
| ByteArrays.WholeArrayWritten | gif.worker.js:639-643 | Writing a whole byte array with no offset or length appends that array unchanged |
| ByteArrays.ReadBackIsContents | gif.worker.js:613-631 | Reading byte k back from page k/4096, slot k%4096 gives the k-th byte written |
| Bitwise.MasksAreLowBits | gif.worker.js:390 | `masks[n]` is the n-bit mask 2^n - 1 |
| Bitwise.AndLowBits | gif.worker.js:556 | Masking with 2^n - 1 keeps `x mod 2^n` |
| Bitwise.OrDisjoint | gif.worker.js:558 | Or-ing a code shifted above the pending bits equals adding it |
| Bitwise.XorBound | gif.worker.js:509 | The xor of two n-bit values is an n-bit value, so the hash slot stays in the table |
| Hashing.HsizeIsPrime | gif.worker.js:389 | 5003 has no divisor between 2 and 5002 |
| Hashing.ProbeSlotsDistinct | gif.worker.js:515-518 | The secondary probe visits 5003 distinct slots before any slot repeats |
| Hashing.ProbesBoundedByOccupancy | gif.worker.js:517-524 | If the first k+1 probed slots are all occupied, at least k+1 slots are occupied. So the probe meets a free slot while the table has one |
| GifLzw.BlocksFramed | gif.worker.js:440-453 | The packets are length-prefixed sub-blocks of 1 to 254 bytes |
| GifLzw.UnblockBlocks | gif.worker.js:447-453 | Reading the sub-blocks and the 0 terminator back gives the payload and the rest of the input |
| GifLzw.BlocksOfFullBlocks | gif.worker.js:440-443 | After whole 254-byte packets, a last packet is framed as its length followed by its bytes |
| LzwEncoding.PixelStream | gif.worker.js:548-553 | The encoder reads exactly width*height pixels, each `pixel & 0xff`, with 0 past the array's end |
| LzwEncoding.LZWEncoder.constructor | gif.worker.js:392-437 | Keeps the size and pixels; the initial code size is `max(2, colorDepth)`; it allocates three distinct tables of 256, 5003 and 5003 entries and empties the accumulator |
| LzwEncoding.LZWEncoder.NextPixel | gif.worker.js:548-553 | Returns -1 (EOF) without moving when no pixels remain; otherwise returns the next pixel mod 256 and advances |
| LzwEncoding.LZWEncoder.CharOut | gif.worker.js:440-443 | Appends the byte to the payload, and flushes a packet once it has 254 bytes. The sink holds the framed full packets, and the buffer holds the rest |
| LzwEncoding.LZWEncoder.FlushChar | gif.worker.js:447-453 | Writes a pending packet as a length byte and its bytes; afterwards the sink holds the whole payload framed |
| LzwEncoding.LZWEncoder.Output | gif.worker.js:555-591 | Appends the code at the current width to the packed bit stream and updates the width. At EOF it pads the last byte and flushes, so the sink holds the framed payload of all codes |
| LzwEncoding.LZWEncoder.UpdateWidth | gif.worker.js:571-580 | After a clear the width returns to the initial width. Otherwise it grows by one bit when the next code would not fit, never past 12 bits |
| LzwEncoding.LZWEncoder.DrainBytes | gif.worker.js:563-567 | Shifts whole bytes out of the accumulator until fewer than 8 bits remain; the bits written plus those pending still spell the codes |
| LzwEncoding.LZWEncoder.FlushRest | gif.worker.js:582-590 | At EOF the remaining bits are written zero-padded to a whole byte and the last packet is flushed |
| LzwEncoding.LZWEncoder.ClearHash | gif.worker.js:469-471 | The first `hsize` slots hold -1 and the rest are unchanged |
| LzwEncoding.LZWEncoder.ClearBlock | gif.worker.js:461-466 | Clears the hash table, restarts the free code at ClearCode+2 and the width at the initial width, and emits the Clear code |
| LzwEncoding.LZWEncoder.HashShift | gif.worker.js:498-500 | The hash shift for a 5003-slot table is 4 |
| LzwEncoding.LZWEncoder.Lookup | gif.worker.js:511-525 | The probe ends either on the slot holding `fcode` or on an empty slot, and the slot is in range |
| LzwEncoding.LookupBounds | gif.worker.js:508-509 | `(c << 12) + ent` is `c*4096 + ent`, and the xor hash lies in 0..5002 |
| LzwEncoding.LZWEncoder.Absorb | gif.worker.js:507-532 | One pass of the main loop: it reads a pixel or stops at EOF and keeps the dictionary, hash table and bit stream in step with the pixels read |
| LzwEncoding.LZWEncoder.AddString | gif.worker.js:526-530 | On a miss it emits the prefix code and adds prefix+pixel under the next free code in the empty slot found |
| LzwEncoding.LZWEncoder.Restart | gif.worker.js:526-531 | On a miss with a full table (4096 codes) it emits the prefix and a Clear code, and the decoder's table is reset |
| LzwEncoding.LZWEncoder.Start | gif.worker.js:482-505 | Sets the code widths and the Clear/End/first-free codes from the initial code size, reads the first pixel, computes the hash shift 4, clears the hash table and emits Clear = 2^(initBits-1) as the only code so far |
| LzwEncoding.LZWEncoder.Finish | gif.worker.js:533-535 | Appends exactly two codes: the last prefix at the current width, then the End code (Clear + 1) at the width after that entry; the payload is the padded packing of every code emitted and decodes to every pixel read |
| LzwEncoding.LZWEncoder.Compress | gif.worker.js:473-536 | Writes the framed payload. The first code is Clear = 2^(initBits-1) at width initBits and the last is End = Clear + 1; the payload is the padded packing of the codes and decodes (from the initial code size) to the frame's pixel stream |
| LzwEncoding.LZWEncoder.Encode | gif.worker.js:539-545 | Writes the code size byte, the framed payload and the 0 terminator; a GIF reader decodes this image data to the pixel stream |
| LzwEncoding.ImageDataRoundTrip | gif.worker.js:540-544 | A code size byte, a framed payload that decodes to the pixels, and a 0 terminator read back as those pixels |
| NeuQuantPalette.NeuQuant.constructor | gif.worker.js:74-95 | Keeps the picture and the sampling factor; no network yet |
| NeuQuantPalette.NeuQuant.ColorMap | gif.worker.js:97-111 | Neuron i is the grey `(i << 12) / 256 = 16 i` in all three colours, with tag 0; the network is in the biased range and sorted on green, and the 256-entry index is zeroed |
| NeuQuantPalette.NeuQuant.UnbiasNet | gif.worker.js:259-266 | Each neuron's colours are shifted down by 4 bits and the neuron is tagged with its position |
| NeuQuantPalette.NeuQuant.SmallestGreen | gif.worker.js:119-128 | Finds the first position at or after i with the least green value |
| NeuQuantPalette.NeuQuant.SelectNext | gif.worker.js:118-136 | Swaps the least green into position i; the network stays a permutation and the prefix is unchanged |
| NeuQuantPalette.NeuQuant.BuildIndex | gif.worker.js:114-148 | The network becomes a permutation of itself sorted on green. `netindex[v]` splits the sorted network at green v: neurons before it have green at most v, neurons after it at least v |
| NeuQuantPalette.NeuQuant.Map | gif.worker.js:207-248 | Returns the tag of a neuron of least L1 distance to (b, g, r), and after `process` that entry is the nearest palette entry |
| NeuQuantPalette.GreenPrunesAbove | gif.worker.js:216-217 | When the green gap alone reaches the best distance, no later neuron is nearer |
| NeuQuantPalette.GreenPrunesBelow | gif.worker.js:232-233 | When the green gap alone reaches the best distance, no earlier neuron is nearer |
| NeuQuantPalette.NeuQuant.CreateColorMap | gif.worker.js:340-354 | Palette entry l holds the colour of the neuron tagged l, so the palette is in original neuron order whatever the sort did |
| NeuQuantPalette.NeuQuant.Process | gif.worker.js:250-256 | Returns the palette of the unbiased learned network and leaves the network sorted and indexed for `map` |
| NeuQuantPalette.PaletteEntry | gif.worker.js:340-354 | Entry l of the palette is the unbiased colour of learned neuron l |
| NeuQuantPalette.PermutedFromLearned | gif.worker.js:129-136 | Any permutation of the unbiased network still carries every tag, each neuron with the unbiased colour of the learned neuron its tag names |
| NeuQuantPalette.NearestInPalette | gif.worker.js:207-248 | The nearest neuron's tag names the nearest palette entry |
| GifEncoding.ToInt32 | gif.worker.js:653-654 | `~~x` is the signed 32-bit value congruent to x |
| GifEncoding.GIFEncoder.constructor | gif.worker.js:650-680 | Width and height wrap to 32 bits. The defaults: no transparency, repeat -1, delay 0, palSize 7, dispose -1, first frame, sample 10, empty sink |
| GifEncoding.RoundDelay | gif.worker.js:686-688 | The delay is the nearest hundredth of a second to the milliseconds, halves rounded up |
| GifEncoding.GIFEncoder.SetDelay | gif.worker.js:686-688 | The delay becomes the rounded hundredths |
| GifEncoding.GIFEncoder.SetDispose | gif.worker.js:695-697 | A non-negative code replaces the disposal code; a negative one is ignored |
| GifEncoding.GIFEncoder.SetRepeat | gif.worker.js:704-706 | The repeat count is stored as given |
| GifEncoding.GIFEncoder.SetTransparent | gif.worker.js:715-717 | The transparent colour (or none) is stored as given |
| GifEncoding.GIFEncoder.SetQuality | gif.worker.js:769-772 | The sample interval is the quality, raised to at least 1 |
| GifEncoding.ShortBytes | gif.worker.js:878-881 | Two bytes, low byte first, whose value is x mod 65536 |
| GifEncoding.ShortRoundTrip | gif.worker.js:878-881 | A 16-bit value is read back from its two little-endian bytes |
| GifEncoding.GIFEncoder.WriteShort | gif.worker.js:878-881 | Appends the little-endian 16-bit form |
| GifEncoding.LsdLayout | gif.worker.js:777-792 | The logical screen descriptor is 7 bytes: width, height, packed 0xF7, background 0, aspect 0 |
| GifEncoding.GIFEncoder.WriteLSD | gif.worker.js:777-792 | Appends the logical screen descriptor for the current size and palette size |
| GifEncoding.NetscapeLayout | gif.worker.js:797-806 | The looping extension is 19 bytes: 0x21 0xFF 11, "NETSCAPE2.0", 3 1, the repeat count, 0 |
| GifEncoding.GIFEncoder.WriteNetscapeExt | gif.worker.js:797-806 | Appends the looping extension for the current repeat count |
| GifEncoding.GceLayout | gif.worker.js:811-841 | The control extension is 8 bytes. Disposal is `dispose & 7` when set, else 2 with a transparent colour and 0 without, in bits 2-4. The transparency flag is bit 0, followed by the delay and the transparent index |
| GifEncoding.PackedFlags | gif.worker.js:831-836 | Or-ing the packed fields equals adding the disposal bits and the transparency bit |
| GifEncoding.GIFEncoder.WriteGraphicCtrlExt | gif.worker.js:811-841 | Appends the control extension for the current settings |
| GifEncoding.ImageDescLayout | gif.worker.js:846-867 | The image descriptor is 10 bytes: 0x2C, position 0,0, width, height, then 0 on the first frame and 0x87 (local table of 256) after |
| GifEncoding.GIFEncoder.WriteImageDesc | gif.worker.js:846-867 | Appends the image descriptor for the current frame |
| GifEncoding.PaletteLayout | gif.worker.js:872-876 | A colour table is 768 bytes: the palette followed by zeros |
| GifEncoding.GIFEncoder.WritePalette | gif.worker.js:872-876 | Appends the padded colour table |
| GifEncoding.GIFEncoder.WritePixels | gif.worker.js:886-889 | Appends image data that starts with code size 8, ends with 0, and decodes to the indexed pixels |
| GifEncoding.StripAlpha | gif.worker.js:951-968 | Three bytes per pixel |
| GifEncoding.StripAlphaChannel | gif.worker.js:960-966 | Byte 3p+c of the result is byte 4p+c of the RGBA image, mod 256; alpha is dropped |
| GifEncoding.GIFEncoder.GetImagePixels | gif.worker.js:951-968 | The pixel buffer becomes the RGB bytes of the width*height pixels of the image |
| GifEncoding.GIFEncoder.CopyRows | gif.worker.js:960-967 | The row-by-row copy fills the buffer with the RGB bytes of the first h rows |
| GifEncoding.GIFEncoder.AnalyzePixels | gif.worker.js:894-917 | Builds the palette, maps each pixel to a nearest palette entry, records the entries used and resets the depth and palette size. With a transparent colour, the transparent index is the closest used entry, as the corrected `findClosest` gives it (the code as written stores 0; see Findings) |
| GifEncoding.GIFEncoder.MapPixels | gif.worker.js:902-907 | Every pixel's index is a nearest palette entry for it, and each index is marked as used |
| GifEncoding.MappedSnoc | gif.worker.js:903-907 | Mapping one more pixel to a nearest entry extends the mapped prefix |
| GifEncoding.ClosestIsNearestUsed | gif.worker.js:922-945 | When some entry is used, the answer is a used entry of least squared RGB distance |
| GifEncoding.BestStep | gif.worker.js:936-941 | One step of the search keeps the first used entry of least distance so far |
| GifEncoding.GIFEncoder.FindClosest | gif.worker.js:922-945 | Corrected: -1 without a palette; otherwise the first used entry of least squared RGB distance, or 0 when none is used |
| GifEncoding.GIFEncoder.FindClosestAsWritten | gif.worker.js:922-945 | As written: -1 without a palette; otherwise always 0 |
| GifEncoding.FractionalIndex | gif.worker.js:937 | `i / 3` with `i = 3k + 2` is k + 2/3, never a whole index |
| GifEncoding.WhiteMatchesEntryOne | gif.worker.js:922-945 | With black at 0, white at 1 and only 1 used, the closest used entry to white is 1, not 0 |
| GifEncoding.GIFEncoder.WriteFrame | gif.worker.js:729-741 | Appends the first-frame blocks (screen descriptor, global table, looping extension if repeat >= 0), then the control extension, descriptor, local table on later frames, and image data |
| GifEncoding.GIFEncoder.AddFrame | gif.worker.js:724-744 | Writes the frame blocks in GIF89a order. The image data decodes to the indexed pixels, and each is a nearest palette entry for its RGB pixel. The used-entry flags gain exactly the frame's indices; with a transparent colour the transparent index is the nearest used entry (corrected lookup), otherwise it is unchanged. Later frames are marked as not first |
| GifEncoding.GIFEncoder.Finish | gif.worker.js:750-752 | Appends exactly the trailer byte 0x3B |
| GifEncoding.RowsProduct | gif.worker.js:960-961 | h rows of w pixels are w*h pixels |

## Left out

- NeuQuant learning (`learn`, `contest`, `altersingle`, `alterneigh`, the
  bias and frequency arrays, lines 151-204 and 268-337) is not modelled. It
  is a floating-point training loop. The network it produces is a parameter of
  `Process`, `AnalyzePixels` and `AddFrame`: 256 neurons whose colours are
  integers in 0..4095.
- NeuQuantPalette.NeuQuant.UnbiasNet: the source shifts floating-point values (after
  a 32-bit truncation). The model shifts integers, since the learned network
  is given as integers.
- NeuQuantPalette.NeuQuant.Map: requires the state `process` leaves: sorted on green,
  byte colours, and an index within the network. It is not modelled on an
  arbitrary network.
- `setFrameRate` (lines 758-760) is not modelled. It uses floating-point division by
  the frame rate, which no worker message calls.
- `getData` (lines 618-626) and `stream` (lines 973-975) are not modelled.
  They read the pages out; `Contents` and `ReadBackIsContents` state what the pages hold.
- The worker's message handler (lines 980-1000) is not modelled. It is I/O
  between threads. On 'finish' it posts the pages without calling `finish`,
  so the trailer byte is never written on that path.
- background.js and controls.js are not part of this model. They are the page
  that drives the worker.
- LzwEncoding.LZWEncoder.Encode: requires at least one pixel
  (width*height >= 1), pixel values below 2^codeSize, and a code size of 2..8. An
  empty frame makes `compress` output the EOF value -1 as a code. The frames
  the encoder passes are never empty, and their indices are bytes with code
  size 8.
- LzwEncoding.LZWEncoder.Compress: the same requirements as `Encode`.
- GifEncoding.GIFEncoder.AddFrame: requires a frame of at least one pixel,
  for the reason given for `Encode`.
- GifEncoding.GIFEncoder.WritePixels: requires colour depth 8, the only depth
  `analyzePixels` sets before it is called.
- GifEncoding.GIFEncoder.GetImagePixels: requires non-negative width and
  height. When exactly one size is negative, `w * h * 3` is negative and the
  typed-array allocation throws; the model does not model the exception.
  When both are negative the allocation succeeds (for example 3 bytes for
  -1 by -1), the copy loops run zero times, and the program goes on to encode
  a frame of |w*h| black (zero-valued) pixels (one pixel from the 3 zero
  bytes for -1 by -1) whose descriptor holds the sizes mod 65536. This
  case is not modelled.
- GifEncoding.GIFEncoder.AnalyzePixels: requires a pixel buffer whose length
  is a multiple of 3. This always holds after `getImagePixels`.
- GifEncoding.GIFEncoder.AnalyzePixels: takes the transparent index from the
  corrected `FindClosest`, the closest used palette entry. The code as written
  (line 915 calling lines 922-945) always stores 0 once a palette exists; that
  behaviour is modelled separately by `FindClosestAsWritten` (see Findings).
  So when a transparent colour is set, the transparent index that `AddFrame`
  writes into the graphic control extension is the corrected one, not the
  program's 0.
- ByteArrays.ByteArray.WriteUTFBytes: a Dafny `char` is a Unicode scalar
  value, while `charCodeAt` returns UTF-16 code units. A character outside
  the Basic Multilingual Plane is written as one byte here and as two (its
  surrogates mod 256) by the program. The only caller writes the ASCII text
  "NETSCAPE2.0", for which the two agree.
- GifEncoding.GIFEncoder.SetDelay: takes whole milliseconds. Fractional
  inputs to `Math.round` are not modelled.
- GifEncoding.GIFEncoder.SetTransparent: takes an optional integer colour.
  JavaScript values other than numbers and null are not modelled.
- The page pointer and the `charMap` table of `ByteArray` (lines 606-611) are
  kept only as far as `Contents` needs them.

## Findings

| source | as written | input that shows it | evidently intended | confidence | as-written member | corrected member |
|---|---|---|---|---|---|---|
| gif.worker.js:932-943 | The entry index is `i / 3`, computed after `i` has moved to the blue byte 3k+2. It is k + 2/3, so `usedEntry[index]` is always undefined and `findClosest` returns 0 | colour table [0,0,0, 255,255,255], only entry 1 used, c = 0xFFFFFF: returns 0 (black) | the first used entry nearest to c, here 1 (white) | not executed | GifEncoding.GIFEncoder.FindClosestAsWritten | GifEncoding.GIFEncoder.FindClosest |
