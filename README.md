# MakerBadge ZivyObraz image decode, modelled in Dafny

The MakerBadge firmware (`code.py`) wakes up and asks the ZivyObraz server for
an image. It reads two response headers: `sleep`, in minutes, and
`timestamp`. It compares the timestamp with the four little-endian bytes at
the start of the microcontroller's non-volatile memory. Only when they differ
does it decode the streamed body into a `displayio.Bitmap` and hand it to the
e-paper display. It then writes the new timestamp into those four bytes and
goes to deep sleep.

The body starts with a two-byte magic:
- `Z2` is a run-length format. Each byte is one run: the low six bits give the
  number of pixels, the top two bits give their colour index. The runs fill a
  display-sized, two-colour bitmap in raster order.
- `BM` is an indexed Windows BMP. The decoder reads the file header, the DIB
  header size, the width, the height and the bit depth. It then reads a colour
  table of `2 ** bit_depth` BGR0 entries into a palette of `0xRRGGBB` values.
  Finally it reads scanlines padded to a multiple of four bytes, bottom row
  first. Pixels are unpacked most significant bits first, and the padding past
  the width is never written.
- `Z1`, `Z3` and any other magic give a 1x1 placeholder bitmap.

The header reads and the completion of each BMP scanline go through
`get_chunk`, which polls the stream and appends each chunk until it holds at
least the number of bytes asked for. The `Z2` body loop and the first poll of
each BMP scanline take the stream's chunks directly.

The project models these steps in Dafny:
- The stream is a `ChunkReader.ByteStream` object holding the chunks still to
  come.
- The bitmap is a `Sink.Bitmap` object over an `array<int>`, and the
  non-volatile memory is an `array<byte>`.
- Each loop of the source is a method whose `ensures` ties its result and its
  new state to a specification function. The properties the firmware relies on
  are proved about those functions as lemmas.
- An uncaught Python exception ends the program. It is modelled as an `Err`
  carrying a `Failure`: `StreamEnded`, `PixelWriteRejected`,
  `PaletteEntryShort`, `PaletteIndexOutOfRange`, `UnsupportedBitDepth`,
  `PaletteUnbound` or `TimestampOutOfRange`.

Files:
- `errors.dfy`: `Option`, `Result`, `Outcome` and the failures.
- `bytes.dfy`: bytes, powers of two, slicing, `int.from_bytes` and `int.to_bytes`.
- `chunk_reader.dfy`: the stream and `get_chunk`.
- `bits.dfy`: `>>` and `&` on a byte, related to division and remainder.
- `sink.dfy`: the bitmap and the writes into it.
- `format.dfy`: the magic comparison.
- `rle.dfy`: the `Z2` decoder, plus an encoder used as its inverse.
- `bmp_header.dfy`, `bmp_palette.dfy`, `bmp_rows.dfy` and `bmp_decode.dfy`:
  the `BM` decoder.
- `refresh_gate.dfy`: the headers and the timestamp slot.
- `cycle.dfy`: one wake-up from the headers to the timestamp write.

Some of the code's behaviour at the edges, as modelled:
- The colour-table entry `10 20 30 00` (blue, green, red, unused) becomes
  `0x302010`, which `(red << 16) + (green << 8) + blue` computes.
- A `Z2` body whose runs go past `width * height` makes `bitmap[i] = ...`
  raise, which ends the program.
- `get_chunk` asks `iter_content` for the bytes still missing, and a chunk
  never holds more than it was asked for, so the buffer ends at exactly
  `chunk_size` bytes. The model's chunks do not depend on the size asked
  for, so `Collect` returns the whole completing chunk, surplus included;
  `CollectExact` shows that under `WithinRequests`, the condition real
  streams meet, the read is exact.

## Model

| member | source | states |
|---|---|---|
| ChunkReader.ByteStream.Next | code.py:32 | one `__next__()`: the next chunk is returned and removed, or StopIteration (None) once the stream is empty |
| ChunkReader.Collect | code.py:27-34 | a completed read leaves no more chunks than there were; the only way `get_chunk` fails is the stream ending |
| ChunkReader.GetChunk | code.py:27-34 | the polling loop returns exactly what `Collect` describes and leaves the stream at its unread chunks; on failure the stream is exhausted |
| ChunkReader.CollectKeepsOrder | code.py:27-34 | a returned buffer holds at least `chunk_size` bytes and starts with the `chunk` argument |
| ChunkReader.CollectLosesNothing | code.py:27-34 | the returned bytes followed by the unread chunks are exactly the carried-in bytes followed by the whole stream; what is unread is a suffix of the stream |
| ChunkReader.CollectFailsIffShort | code.py:31-32 | the read fails if and only if the carried-in bytes plus everything the stream holds fall short of `chunk_size` |
| ChunkReader.CollectExact | code.py:29-32 | when no poll yields more than the bytes still missing, the buffer is exactly `chunk_size` bytes |
| ChunkReader.CollectExample | code.py:27-34 | chunks of 3, 1 and 4 bytes give the 8 bytes in order; a stream ending after 6 bytes makes the read fail |
| Bytes.Slice | code.py:166-172 | Python slicing `s[lo:hi]` with non-negative bounds: with `n` the length of `s`, its length is `min(hi, n) - lo` when `lo < hi` and `lo < n`, otherwise 0, and element `k` is `s[lo + k]` |
| Bytes.LeValue | code.py:130 | `int.from_bytes(s, "little")` of `n` bytes is below `2 ** (8n)` |
| Bytes.LeEncode | code.py:253 | the little-endian encoding has exactly the requested number of bytes |
| Bytes.LeDecodeEncode | code.py:253 | decoding the little-endian encoding of a value below `2 ** (8n)` gives the value back |
| Bytes.LeEncodeDecode | code.py:130 | encoding the decoded value of a byte string gives the byte string back |
| Bytes.ToBytes | code.py:253 | `to_bytes(n, "little")` succeeds exactly for `0 <= v < 2 ** (8n)`, and then gives `n` bytes that decode to `v` |
| Bytes.FlattenAppend | code.py:150 | the bytes of two runs of chunks are the bytes of each, in order |
| Format.Detect | code.py:142-241 | a known format is reported only for a chunk equal to its magic; a chunk that is not two bytes long is Unknown (with `DetectMatchesMagic` for the converse) |
| Format.Magic | code.py:142-241 | every known magic is two bytes long |
| Format.DetectMatchesMagic | code.py:142-241 | the dispatch picks a known format if and only if the whole chunk equals that format's magic |
| Format.MagicBytes | code.py:142-235 | the magics as byte values: `Z2` is 5A 32, `BM` is 42 4D, `Z1` is 5A 31, `Z3` is 5A 33 |
| Sink.Bitmap.constructor | code.py:193 | `displayio.Bitmap(width, height, colors)` has `width * height` pixels, all 0 |
| Sink.Bitmap.Set | code.py:226 | `bitmap[i] = v` succeeds if and only if `i` is a pixel and `v` is below the colour count; it changes only pixel `i` |
| Sink.BlankSuffix | code.py:186 | the tail of a freshly allocated buffer is still all zeros |
| Sink.WritablePrefix | code.py:155 | if a run of writes succeeds, every prefix of it succeeds |
| Sink.RejectedWrite | code.py:155 | a run whose next pixel is rejected cannot be completed |
| Sink.WritableAppend | code.py:154-156 | writing `a + b` succeeds if and only if writing `a` and then `b` after it succeed |
| Sink.Overwrite | code.py:155 | writing a run keeps the buffer's length |
| Sink.OverwriteAt | code.py:155 | after the writes, a pixel inside the run holds the run's value, and every other pixel is as before |
| Sink.OverwriteAppend | code.py:154-156 | writing `a` and then `b` right after it is the same as writing `a + b` |
| Sink.OverwriteOne | code.py:155-156 | writing one more pixel after a run is one indexed update |
| Sink.PaintedStep | code.py:155-156 | an accepted write of the next pixel extends the painted run |
| Sink.OverwriteBelow | code.py:155 | accepted writes keep every pixel a valid palette index |
| Rle.RunLength | code.py:152 | `byte & 0b00111111` is below 64 |
| Rle.RunColor | code.py:153 | `(byte & 0b11000000) >> 6` is below 4, and `byte == color * 64 + count` |
| Rle.RunFields | code.py:152-153 | `byte & 0x3F` and `(byte & 0xC0) >> 6`, computed on eight bits, are the run's count and colour |
| Rle.RunByte | code.py:152-153 | every count below 64 and colour below 4 is encoded by a byte that splits back into them |
| Rle.Run | code.py:154-156 | one byte stands for `count` pixels, all of its colour |
| Rle.Cursor | code.py:149-156 | the cursor `i` after some bytes grows by at most 63 per byte (with `RunsInPlace` for where each run lands) |
| Rle.Expand | code.py:150-156 | the pixels the bytes stand for number the cursor after them, i.e. the sum of their counts |
| Rle.ExpandAppend | code.py:150-151 | decoding does not depend on where the chunk boundaries fall |
| Rle.RunsInPlace | code.py:149-156 | pixel `p` with `sum(c1..c(j-1)) <= p < sum(c1..cj)` has the colour of byte `j` |
| Rle.PaintChunk | code.py:151-156 | one chunk's bytes are painted from the cursor: the write succeeds if and only if every pixel fits and has a valid colour; the buffer becomes the run written there and the cursor advances by the chunk's counts |
| Rle.PaintRun | code.py:152-156 | one byte's `for _ in range(count)` loop extends the painted run by that byte's pixels, or shows the extended run cannot be written |
| Rle.ChunkRejected | code.py:154-155 | a rejected run inside a chunk makes the whole chunk's pixels unwritable |
| Rle.WritableRuns | code.py:150-156 | painting `a` then `b` from where `a` ended succeeds if and only if painting `a + b` from 0 does |
| Rle.DecodeZ2 | code.py:149-156 | the whole body is decoded from cursor 0 if and only if all its pixels fit and are valid colours; the bitmap is its runs written from pixel 0, pixels past the cursor unchanged |
| Rle.LeadingRun | code.py:152 | the leading run of equal pixels is between 1 and the cap long |
| Rle.LeadingRunExpands | code.py:152-156 | the byte for a leading run decodes to exactly those pixels |
| Rle.ExpandEncode | code.py:150-156 | every pixel sequence with colours 0..3 is the decoding of its run-length encoding |
| BmpHeader.DibRemainder | code.py:166 | the second read's size lies in `[-4, 2 ** 32 - 4)`; `DibRemainderOfHead` pins it to the written DIB size minus 4 |
| BmpHeader.ParseInfo | code.py:170-172 | width and height are u32 and the bit depth is u16 |
| BmpHeader.Stride | code.py:176 | the padded row size is a multiple of 4 (with `StrideAligned` and `StrideBounds` for its bounds) |
| BmpHeader.StrideAligned | code.py:176 | the stride is a multiple of 4, holds the row's bits, and one word less would not |
| BmpHeader.StrideBounds | code.py:176 | `ceil(width * bit_depth / 8) <= stride < ceil(width * bit_depth / 8) + 4` |
| BmpHeader.EncodeHead | code.py:161-166 | a written file header plus DIB size is the 16 bytes of the first read |
| BmpHeader.DibRemainderOfHead | code.py:161-166 | the DIB size written into the first read is the one read back, minus 4 |
| BmpHeader.SizeOfEncoded | code.py:166 | the DIB size sits little-endian at bytes 12..16 of the first read |
| BmpHeader.EncodeInfo | code.py:167-172 | a written DIB header after its size field is 36 bytes |
| BmpHeader.ParseInfoOfEncoded | code.py:167-172 | width, height and bit depth written into a DIB header are the ones read back |
| BmpHeader.FieldsOfEncoded | code.py:170-172 | width, height and bit count sit little-endian at bytes 0..4, 4..8 and 10..12 of the second read |
| BmpPalette.Rgb | code.py:191 | the packed colour lies in `[0, 0xFFFFFF]` |
| BmpPalette.RgbChannels | code.py:191 | red, green and blue can each be read back from their own byte of the packed colour |
| BmpPalette.ColorTable | code.py:189-191 | entry `k` of the table is built from the bytes at offset `4k`, in table order |
| BmpPalette.ColorTableExtend | code.py:189-191 | one more whole entry appends its colour to the table |
| BmpPalette.StoreEntry | code.py:191 | storing entry `i / 4` extends the converted prefix of the palette |
| BmpPalette.TableFailure | code.py:189-191 | an entry past the palette's end is met before a short last group exactly when there are more whole entries than colours |
| BmpPalette.FillPalette | code.py:189-191 | the colour-table loop succeeds if and only if the table is whole entries that fit; the palette becomes the converted table followed by its untouched entries; otherwise the failure that stops the loop |
| BmpPalette.Quarters | code.py:189 | where `range(0, n, 4)` stands against the `n / 4` whole entries |
| BmpPalette.ColorTableExample | code.py:189-191 | the entry `10 20 30 00` converts to `0x302010` |
| BmpRows.PixelsPerByte | code.py:209 | `8 // bit_depth` is 1, 2, 4 or 8, and its pixels fit in a byte |
| BmpRows.PixelsPerByteQuotient | code.py:209 | the model's pixels per byte is `8 // bit_depth` |
| BmpRows.Extract | code.py:218-222 | `(byte >> shift) & mask` is below `2 ** bit_depth` |
| BmpRows.Groups | code.py:215-222 | a byte yields `8 // bit_depth` pixels |
| BmpRows.GroupsAt | code.py:215-222 | pixel `j` of a byte is the group at position `8 // bit_depth - 1 - j`, most significant first |
| BmpRows.UnpackAppend | code.py:212 | unpacking two runs of bytes is unpacking each in order |
| BmpRows.Unpack | code.py:212-222 | the bytes unpack to `8 // bit_depth` pixels each (with `UnpackAt` for each pixel's value) |
| BmpRows.UnpackAt | code.py:212-222 | pixel `j` of a scanline is `(data[j / ppb] >> ((ppb - 1 - j % ppb) * bit_depth)) & ((1 << bit_depth) - 1)` |
| BmpRows.RowPixels | code.py:224-227 | a scanline never writes more than `width` pixels |
| BmpRows.RowPixelsLength | code.py:224-227 | a scanline writes `width` pixels, or all its bytes hold when they are fewer |
| BmpRows.RowPixelsBelow | code.py:221-222 | every written pixel is below `2 ** bit_depth` |
| BmpRows.ValuesBelow | code.py:221-222 | every unpacked pixel is below `2 ** bit_depth` |
| BmpRows.PixelAt | code.py:218-222 | `(byte >> shift) & ((1 << bit_depth) - 1)`, computed on eight bits, is the group of `bit_depth` bits at that position (`Extract`) |
| BmpRows.ShiftMask | code.py:218-222 | shifting and masking the byte is dividing by `2 ** shift` and taking the remainder by `2 ** bit_depth` |
| BmpRows.ShiftOfByte | code.py:221 | `byte >> shift` is `byte // 2 ** shift` |
| BmpRows.MaskOfValue | code.py:219-222 | `value & ((1 << bit_depth) - 1)` is `value % 2 ** bit_depth` |
| Bits.ByteBits | code.py:221 | a byte read as eight bits keeps its value |
| Bits.ToBitsValue | code.py:221 | the eight bits assembled from a value's binary digits have that value |
| Bits.ShiftRight | code.py:221 | for every amount below 8, `x >> s` is `x // 2 ** s` |
| Bits.MaskLow | code.py:219-222 | for every width 1 to 8, `x & ((1 << d) - 1)` is `x % 2 ** d` |
| Bits.TopTwo | code.py:153 | `(x & 0b11000000) >> 6` is `x // 64` |
| BmpRows.GroupStep | code.py:215-222 | one pixel of the inner loop extends the produced pixels by the next group |
| BmpRows.SkipStep | code.py:225 | a pixel past the width is produced but not written |
| BmpRows.WriteStep | code.py:225-227 | a pixel before the width that the bitmap accepts is written at `row_offset + index` |
| BmpRows.WritePixel | code.py:225-227 | `if index < width: bitmap[row_offset + index] = pixel; index += 1` keeps the row's progress, or reports the pixel the bitmap rejected |
| BmpRows.WriteByte | code.py:215-227 | one byte's loop writes its groups in order, or reports the rejected pixel inside the width |
| BmpRows.ByteRejected | code.py:226 | a rejected write inside a byte leaves the row not writable |
| BmpRows.RowPixelsPrefix | code.py:212-227 | the row's pixels after the first `j` bytes are a prefix of the row |
| BmpRows.WriteRow | code.py:204-229 | one scanline succeeds if and only if its row is writable at `row_offset`; the bitmap becomes that row written there; padding groups are never written |
| BmpRows.RowCut | code.py:225 | a cut-off part of a row that is not writable leaves the row not writable |
| BmpDecode.Rows | code.py:197-229 | the scanline loop keeps the buffer's length, and fails only on a short stream or a rejected pixel |
| BmpDecode.DecodeRows | code.py:197-229 | the row loop ends exactly as `Rows` describes, with the bitmap holding its pixels and the stream exhausted |
| BmpDecode.RowsCase | code.py:202-229 | one iteration unfolded: the read fails, the row is rejected, or it is written and the loop goes on |
| BmpDecode.RowsStep | code.py:202-208 | a scanline that `get_chunk` completes, from one chunk or several, is written at `(height - row) * width` and the loop goes on with the chunks after it |
| BmpDecode.StrideCoversWidth | code.py:176 | a padded row at depth 1, 2, 4 or 8 holds at least `width` pixels |
| BmpDecode.FullRow | code.py:212-227 | a whole padded scanline gives exactly `width` pixels |
| BmpDecode.RowOffset | code.py:208 | `(height - row) * width` is the start of the row `height - row` rows from the top |
| BmpDecode.CellsProduct | code.py:208 | counting rows of `width` pixels gives the product |
| BmpDecode.BottomUpLength | code.py:208 | stacked whole scanlines are `width` pixels per scanline |
| BmpDecode.FillRowAbove | code.py:226 | a full row written just above the filled rows joins them |
| BmpDecode.AlignedStep | code.py:202-229 | one iteration that reads a whole scanline, however many chunks it takes, writes it into the lowest blank row |
| BmpDecode.DeliversFirst | code.py:27-34 | a stream that delivers scanlines completes the first one exactly, from fewer chunks than it has |
| BmpDecode.WholeScanlinesDeliver | code.py:202-205 | a stream of one whole scanline per chunk delivers those scanlines |
| BmpDecode.RowsAligned | code.py:197-229 | with any stream that delivers exactly `height` whole scanlines, however they are split into chunks, the loop fills the bitmap bottom up: the first scanline is the last row, the last one the top row |
| BmpDecode.AlignedLink | code.py:197-229 | the induction step of `RowsAligned` |
| BmpDecode.BottomUpCons | code.py:208 | the first scanline's row goes below the rows stacked from the others |
| BmpDecode.BottomUpRow | code.py:208 | scanline `k` of `n` lands at pixel `(n - 1 - k) * width`, as row `n - 1 - k` from the top |
| BmpDecode.RowAbove | code.py:208 | the induction step of `BottomUpRow` |
| BmpDecode.BottomRow | code.py:208 | the first scanline is the bottom row |
| BmpDecode.SplitScanlineExample | code.py:202-229 | a 8x2 one-bit image whose first scanline arrives as one byte then three, and whose second arrives whole, is decoded bottom up |
| BmpDecode.PaletteOf | code.py:184-191 | the palette has `2 ** bit_depth` entries |
| BmpDecode.PreludeSpec | code.py:161-185 | the reads before the scanlines succeed only with a bit depth in 1..8 |
| BmpDecode.ReadPrelude | code.py:161-185 | the three `get_chunk` calls give what `PreludeSpec` describes and leave the stream at the scanlines |
| BmpDecode.PaletteSpec | code.py:186-191 | the palette is built if and only if the table is whole entries that fit, and then has `2 ** bit_depth` entries; otherwise the loop's failure |
| BmpDecode.NewPalette | code.py:186-191 | `displayio.Palette(color_count)` filled by the loop is what `PaletteSpec` describes |
| BmpDecode.PixelsSpec | code.py:193-229 | a decoded bitmap has `width * height` pixels |
| BmpDecode.NewPixels | code.py:193-229 | the allocated bitmap after the row loop is what `PixelsSpec` describes |
| BmpDecode.DecodeBmpSpec | code.py:158-229 | a decoded BMP carries its palette |
| BmpDecode.DecodeBmp | code.py:158-229 | the `BM` branch gives what `DecodeBmpSpec` describes and consumes the stream |
| BmpDecode.RowsBelow | code.py:221-226 | every row the loop writes holds palette indices only |
| BmpDecode.BmpImageShape | code.py:170-193 | a decoded BMP is `width` by `height` with `2 ** bit_depth` colours, every pixel an index into a palette of that many entries |
| RefreshGate.ReadSchedule | code.py:120-126 | the sleep time is the `sleep` header times 60 and the timestamp is the `timestamp` header; if either fails, 3600 s and timestamp 0 |
| RefreshGate.StoredStamp | code.py:129-130 | the stored timestamp is below `2 ** 32` |
| RefreshGate.IsNewImage | code.py:134 | the image is not new exactly when the timestamp fits 4 bytes and the slot holds its little-endian encoding |
| RefreshGate.Persist | code.py:253-254 | the slot is rewritten if and only if `0 <= timestamp < 2 ** 32`; it then reads back as the timestamp and the rest of the memory is unchanged; otherwise OverflowError and nothing changes |
| RefreshGate.PersistThenSkip | code.py:253-254 | after the write, the same timestamp no longer counts as a new image |
| Cycle.Z2Spec | code.py:143-156 | the `Z2` frame is display-sized with two colours, white and black |
| Cycle.DecodeZ2Image | code.py:143-156 | the `Z2` branch gives what `Z2Spec` describes, and a completed decode has read the stream to its end |
| Cycle.Placeholder | code.py:231-241 | `Bitmap(1, 1, 1)`: one pixel of value 0, one colour, and no palette assigned |
| Cycle.BodySpec | code.py:142-241 | `Z2` and `BM` go to their decoders; `Z1`, `Z3` and every other magic give the 1x1 placeholder |
| Cycle.DecodeBody | code.py:142-241 | the dispatch gives what `BodySpec` describes; the placeholder branches leave the stream untouched, and a completed `Z2` or `BM` decode has read it to its end |
| Cycle.BodyWellFormed | code.py:142-241 | every branch that completes yields `width * height` pixels, each an index below the colour count, with a palette of as many entries when one is bound |
| Cycle.ShaderAsWritten | code.py:244 | as written, the shader is available if and only if a branch bound `palette` |
| Cycle.PlaceholderCrashesAsWritten | code.py:231-244 | as written, every placeholder branch raises at the shader |
| Cycle.Shader | code.py:244 | the corrected shader is the branch's palette, or one white entry for the placeholder |
| Cycle.ShaderCoversColors | code.py:244 | with the corrected shader, every decoded frame has one shader entry per colour and only valid indices |
| Cycle.ImageSpec | code.py:138-241 | reading the magic and dispatching yields only well-formed images |
| Cycle.DecodeImage | code.py:138-241 | `get_chunk(resp, 2)` and the dispatch give what `ImageSpec` describes and leave the stream as `LeftUnread` says |
| Cycle.CycleSpec | code.py:120-254 | the wake-up skips the decode if and only if the timestamp equals the stored one; it renders only with a timestamp that fits 4 bytes; it sleeps for the scheduled time |
| Cycle.RunCycle | code.py:117-254 | the wake-up gives what `CycleSpec` describes; after a render the slot holds the timestamp and the rest of the memory is unchanged; otherwise the memory is untouched; a skip reads nothing from the stream, and a decode that completes leaves it as `LeftUnread` says |
| Cycle.RenderedThenSkipped | code.py:129-134 | after a rendered wake-up, the next one offered the same timestamp skips the decode |
| Cycle.RenderedFrameWellFormed | code.py:243-244 | every frame handed to the display shows only colours of its shader |

## Left out

- Wi-Fi connection with fallback credentials, RSSI, MAC and battery reads, and
  URL building (code.py:58-111): these are radio and board I/O. The model
  receives the headers and the body chunks as inputs.
- The HTTP session and the first, unused `requests.get` (code.py:113-117):
  these are network I/O. The stream's chunking is a parameter (`polls`).
- LED blinking and deep sleep (code.py:40-54, 259): device side effects. The
  model returns the sleep time instead.
- Display refresh and the busy-wait (code.py:245-251): hardware driver calls.
  The model stops at the `Frame` handed over (bitmap and shader).
- The `print` of the magic decoded as UTF-8 (code.py:140): it is console
  output only. It can raise on a non-UTF-8 magic, which ends the program
  before the dispatch; the model does not capture that exception.
- `int(...)` on the header text (code.py:121-122): header parsing is an
  input. Each header is either an integer or absent/invalid (`Option<int>`).
- `displayio.Bitmap` and `displayio.Palette` internals: a pixel write is
  accepted exactly when the index is a pixel of the bitmap and the value is
  below the colour count. The binding itself checks the value against
  `2 ** bits_per_value`; for the counts used here the two agree: 2 for `Z2`,
  and `2 ** bit_depth` for `BM`, whose unpacked values are all below
  `2 ** bit_depth` (`BmpRows.ValuesBelow`). The binding's own index arithmetic and its memory
  limits are not modelled.
- `PreludeSpec`: bit depths outside 1..8 end the decode with
  `UnsupportedBitDepth` right after the DIB header. The source goes on:
  - At depth 0 it reads a 4-byte colour table and allocates a one-colour
    bitmap. The first scanline chunk then raises ZeroDivisionError at
    `8 // bit_depth`. If no scanline data follows, the branch completes: an
    all-zero frame is shown and the timestamp is stored.
  - At depths 9 to 15, `8 // bit_depth` is 0, so no pixel is ever written.
    The branch reads the `4 * 2 ** bit_depth`-byte colour table and all the
    scanlines, shows an all-zero frame with that palette and stores the
    timestamp.
  - At 16 bits and more, the same happens in principle, but the colour table
    of `4 * 2 ** bit_depth` bytes and the palette of `2 ** bit_depth` entries
    outgrow the board's memory (code.py:180 reports a MemoryError at 24 bits).
- At depths 3, 5, 6 and 7 the padded stride may hold fewer than `width`
  pixels. The row loop models this exactly, but `RowsAligned` and
  `BottomUpRow` are stated only for depths 1, 2, 4 and 8. `RowsAligned`
  holds for every split of the scanlines into chunks that `Delivers`
  describes.
- Chunk sizes: the modelled chunks do not depend on the size requested, so
  the model admits chunks longer than the request, which the source never
  sees. `WithinRequests`, assumed by `CollectExact` and `Delivers`, is the
  condition real streams meet; the other lemmas hold for every stream.
- Empty chunks: the stream model admits an empty chunk, which
  `iter_content` never yields, because a zero-byte read ends its generator.
  For such a chunk the model's `Z2` and scanline loops go on decoding where
  the source's `for` loop would already have stopped. The lemmas hold for
  every stream, empty chunks included.
- Partial state after an exception (a half-written bitmap or palette) is not
  exposed. A failed decode returns only the failure.
- `RunCycle`: the non-volatile memory is at least 4 bytes long (precondition).
- `Cycle.RunCycle` and `Cycle.CycleSpec` use the corrected `Shader` described
  under Findings. As written, the placeholder branches raise there instead.

## Findings

| source | as written | input that shows it | evidently intended | confidence | as-written member | corrected member |
|---|---|---|---|---|---|---|
| code.py:231-244 | the `Z1`, `Z3` and unknown branches create a 1x1 bitmap but never assign `palette`, so `TileGrid(bitmap, pixel_shader=palette)` raises UnboundLocalError; the placeholder is never shown and the timestamp is not stored | a body starting with the magic `Z1` (or `Z3`, or any unknown two bytes) | show the placeholder with a one-entry palette, so every branch hands the display a shader covering its colours | not executed | Cycle.PlaceholderCrashesAsWritten | Cycle.ShaderCoversColors |
