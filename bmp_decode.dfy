/** The "BM" branch: file and DIB headers, colour table, then scanlines
    stored bottom row first, each padded to a multiple of 4 bytes. */
module BmpDecode {
  import opened Errors
  import opened Bytes
  import opened Sink
  import opened ChunkReader
  import opened BmpHeader
  import opened BmpPalette
  import opened BmpRows

  /** The scanline loop on a stream that will yield `polls`, from scanline
      number `row` (1-based) on, over the pixel buffer `pixels` of a bitmap
      `width` by `height` with `colorCount` colours. Each iteration polls one
      chunk, completes it to a full padded row with `get_chunk` and writes its
      pixels at `(height - row) * width`; the loop ends with the stream. */
  function Rows(pixels: seq<int>, width: nat, height: nat, colorCount: nat, depth: nat, row: int,
                polls: seq<seq<byte>>): (r: Result<seq<int>>)
    requires 1 <= depth <= 8
    ensures r.Ok? ==> |r.value| == |pixels|
    ensures r.Err? ==> r.failure == StreamEnded || r.failure == PixelWriteRejected
    decreases |polls|
  {
    if polls == [] then Ok(pixels)
    else
      match Collect(polls[0], Stride(width, depth), polls[1..])
      case Err(e) => Err(e)
      case Ok(read) =>
        var rowOffset := (height - row) * width;
        var px := RowPixels(read.data, width, depth);
        if Writable(rowOffset, px, |pixels|, colorCount) then
          Rows(Overwrite(pixels, rowOffset, px), width, height, colorCount, depth, row + 1, read.rest)
        else Err(PixelWriteRejected)
  }

  /** `row = 1; for data in resp.iter_content(chunk_size=line_width_pad): index = 0;
      data = get_chunk(resp, chunk_size, data); row_offset = (height - row) * width; ...;
      row += 1`. */
  method DecodeRows(bm: Bitmap, source: ByteStream, depth: nat) returns (r: Outcome)
    requires 1 <= depth <= 8
    modifies bm.pixels, source
    ensures var spec := Rows(old(bm.pixels[..]), bm.width, bm.height, bm.colorCount, depth, 1, old(source.polls));
      && (r.Pass? <==> spec.Ok?)
      && (r.Pass? ==> bm.pixels[..] == spec.value && source.polls == [])
      && (r.Fail? ==> r.failure == spec.failure)
  {
    ghost var spec := Rows(bm.pixels[..], bm.width, bm.height, bm.colorCount, depth, 1, source.polls);
    var width, height := bm.width, bm.height;
    var row: int := 1;
    var chunkSize := Stride(width, depth);
    while true
      invariant Rows(bm.pixels[..], width, height, bm.colorCount, depth, row, source.polls) == spec
      decreases |source.polls|
    {
      ghost var pending := source.polls;
      var next := source.Next();
      if next.None? {
        return Pass;
      }
      RowsCase(bm.pixels[..], width, height, bm.colorCount, depth, row, pending);
      var data := GetChunk(source, chunkSize, next.value);
      if data.Err? {
        return Fail(data.failure);
      }
      var rowOffset: int := (height - row) * width;
      var written := WriteRow(bm, rowOffset, data.value, depth);
      if written.Fail? {
        return written;
      }
      row := row + 1;
    }
  }

  /** One iteration of the scanline loop, unfolded: the read fails, the row
      is rejected, or the row is written and the loop goes on. */
  lemma RowsCase(pixels: seq<int>, width: nat, height: nat, colorCount: nat, depth: nat, row: int,
                 polls: seq<seq<byte>>)
    requires 1 <= depth <= 8 && polls != []
    ensures var read := Collect(polls[0], Stride(width, depth), polls[1..]);
      && (read.Err? ==> Rows(pixels, width, height, colorCount, depth, row, polls) == Err(StreamEnded))
      && (read.Ok? ==>
            var px := RowPixels(read.value.data, width, depth);
            var rowOffset := (height - row) * width;
            Rows(pixels, width, height, colorCount, depth, row, polls)
            == if Writable(rowOffset, px, |pixels|, colorCount)
               then Rows(Overwrite(pixels, rowOffset, px), width, height, colorCount, depth, row + 1, read.value.rest)
               else Err(PixelWriteRejected))
  {
  }

  /** A scanline that `get_chunk` completes from the first chunk is written
      where the loop puts row `row`, and the loop goes on after it. */
  lemma RowsStep(pixels: seq<int>, width: nat, height: nat, colorCount: nat, depth: nat, row: int,
                 polls: seq<seq<byte>>, data: seq<byte>, rest: seq<seq<byte>>)
    requires 1 <= depth <= 8 && polls != []
    requires Collect(polls[0], Stride(width, depth), polls[1..]) == Ok(Read(data, rest))
    requires Writable((height - row) * width, RowPixels(data, width, depth), |pixels|, colorCount)
    ensures Rows(pixels, width, height, colorCount, depth, row, polls)
            == Rows(Overwrite(pixels, (height - row) * width, RowPixels(data, width, depth)),
                    width, height, colorCount, depth, row + 1, rest)
  {
  }

  /** The pixels of whole scanlines read in file order and stacked bottom
      row first: the first scanline is the last row of the picture. */
  function BottomUp(scanlines: seq<seq<byte>>, width: nat, depth: nat): (px: seq<int>)
    requires 1 <= depth <= 8
  {
    if scanlines == [] then []
    else BottomUp(scanlines[1..], width, depth) + RowPixels(scanlines[0], width, depth)
  }

  /** A padded row at depth 1, 2, 4 or 8 holds at least `width` pixels. */
  lemma StrideCoversWidth(width: nat, depth: nat)
    requires depth == 1 || depth == 2 || depth == 4 || depth == 8
    ensures Stride(width, depth) * PixelsPerByte(depth) >= width
  {
    StrideAligned(width, depth);
  }

  /** Every chunk is one whole padded scanline. */
  predicate WholeScanlines(polls: seq<seq<byte>>, width: nat, depth: nat)
  {
    forall k | 0 <= k < |polls| :: |polls[k]| == Stride(width, depth)
  }

  lemma WholeScanlinesTail(polls: seq<seq<byte>>, width: nat, depth: nat)
    requires polls != [] && WholeScanlines(polls, width, depth)
    ensures |polls[0]| == Stride(width, depth) && WholeScanlines(polls[1..], width, depth)
  {
    forall k | 0 <= k < |polls| - 1 ensures |polls[1..][k]| == Stride(width, depth) {
      assert polls[1..][k] == polls[k + 1];
    }
  }

  /** A whole scanline gives exactly `width` pixels. */
  lemma FullRow(data: seq<byte>, width: nat, depth: nat)
    requires depth == 1 || depth == 2 || depth == 4 || depth == 8
    requires |data| == Stride(width, depth)
    ensures |RowPixels(data, width, depth)| == width
  {
    StrideCoversWidth(width, depth);
    RowPixelsLength(data, width, depth);
  }

  /** The pixels of `rows` rows of a bitmap `width` pixels wide, counted
      row by row. */
  function Cells(width: nat, rows: nat): nat
  {
    if rows == 0 then 0 else Cells(width, rows - 1) + width
  }

  lemma CellsSucc(width: nat, rows: nat)
    ensures Cells(width, rows + 1) == Cells(width, rows) + width
  {
  }

  /** `(height - row) * width` is the first pixel of the row `height - row`
      rows from the top. */
  lemma RowOffset(width: nat, height: nat, row: int, above: nat)
    requires height - row == above
    ensures (height - row) * width == Cells(width, above)
  {
    CellsProduct(width, above);
  }

  /** Counting row by row gives the product. */
  lemma {:induction false} CellsProduct(width: nat, rows: nat)
    ensures Cells(width, rows) == width * rows
  {
    if rows > 0 {
      CellsProduct(width, rows - 1);
    }
  }

  /** `BottomUp` on whole rows: each row is `width` pixels long. */
  lemma {:induction false} BottomUpLength(scanlines: seq<seq<byte>>, width: nat, depth: nat)
    requires depth == 1 || depth == 2 || depth == 4 || depth == 8
    requires WholeScanlines(scanlines, width, depth)
    ensures |BottomUp(scanlines, width, depth)| == Cells(width, |scanlines|)
  {
    if scanlines != [] {
      var rest := scanlines[1..];
      FullRow(scanlines[0], width, depth);
      WholeScanlinesTail(scanlines, width, depth);
      BottomUpLength(rest, width, depth);
      CellsSucc(width, |rest|);
    }
  }

  /** Writing a full row into the blank row just above the written ones. */
  lemma FillRowAbove(n: nat, width: nat, px: seq<int>, below: seq<int>)
    requires n >= 1 && |px| == width
    ensures var pixels := Blank(Cells(width, n)) + below;
      && Cells(width, n - 1) + |px| <= |pixels|
      && Overwrite(pixels, Cells(width, n - 1), px) == Blank(Cells(width, n - 1)) + (px + below)
  {
    var pixels := Blank(Cells(width, n)) + below;
    var offset := Cells(width, n - 1);
    CellsSucc(width, n - 1);
    assert Cells(width, n) == offset + width;
    var lhs, rhs := Overwrite(pixels, offset, px), Blank(Cells(width, n - 1)) + (px + below);
    if px != [] {
      assert |lhs| == |rhs|;
      forall k | 0 <= k < |lhs| ensures lhs[k] == rhs[k] {
        OverwriteAt(pixels, offset, px, k);
      }
    }
  }

  /** How a transport that honours every request delivers `scanlines` to
      the row loop: each scanline arrives as a first chunk of at most
      `stride` bytes, the one `iter_content(chunk_size=line_width_pad)`
      yields, completed by `get_chunk` with chunks no longer than the bytes
      still missing; the stream ends after the last scanline. */
  predicate Delivers(polls: seq<seq<byte>>, stride: nat, scanlines: seq<seq<byte>>)
    decreases |polls|
  {
    if polls == [] then scanlines == []
    else
      && scanlines != []
      && |polls[0]| <= stride
      && WithinRequests(|polls[0]|, stride, polls[1..])
      && match Collect(polls[0], stride, polls[1..])
         case Err(_) => false
         case Ok(read) =>
           CollectLosesNothing(polls[0], stride, polls[1..]);
           && read.data == scanlines[0]
           && Delivers(read.rest, stride, scanlines[1..])
  }

  /** One scanline delivered: it is exactly one padded row long, and the
      rest of the stream delivers the others. */
  lemma DeliversFirst(polls: seq<seq<byte>>, stride: nat, scanlines: seq<seq<byte>>)
    requires polls != [] && Delivers(polls, stride, scanlines)
    ensures scanlines != [] && |scanlines[0]| == stride
    ensures Collect(polls[0], stride, polls[1..]).Ok?
    ensures var read := Collect(polls[0], stride, polls[1..]).value;
      && read.data == scanlines[0] && |read.rest| < |polls|
      && Delivers(read.rest, stride, scanlines[1..])
  {
    CollectExact(polls[0], stride, polls[1..]);
    CollectLosesNothing(polls[0], stride, polls[1..]);
  }

  /** A stream whose every chunk is a whole padded scanline delivers its
      chunks as they are. */
  lemma {:induction false} WholeScanlinesDeliver(polls: seq<seq<byte>>, width: nat, depth: nat)
    requires WholeScanlines(polls, width, depth)
    ensures Delivers(polls, Stride(width, depth), polls)
    decreases |polls|
  {
    if polls != [] {
      WholeScanlinesTail(polls, width, depth);
      var stride := Stride(width, depth);
      assert Collect(polls[0], stride, polls[1..]) == Ok(Read(polls[0], polls[1..]));
      WholeScanlinesDeliver(polls[1..], width, depth);
    }
  }

  /** One step of the loop on a delivered scanline `data`: it lands in the
      lowest blank row, and the loop goes on with the chunks after it. */
  lemma AlignedStep(below: seq<int>, width: nat, height: nat, depth: nat, row: int,
                    polls: seq<seq<byte>>, data: seq<byte>, rest: seq<seq<byte>>)
    requires depth == 1 || depth == 2 || depth == 4 || depth == 8
    requires row >= 1 && height - row + 1 >= 1 && polls != []
    requires |below| == Cells(width, row - 1)
    requires Collect(polls[0], Stride(width, depth), polls[1..]) == Ok(Read(data, rest))
    requires |data| == Stride(width, depth)
    ensures |RowPixels(data, width, depth)| + |below| == Cells(width, row)
    ensures Rows(Blank(Cells(width, height - row + 1)) + below, width, height, Pow2(depth), depth, row, polls)
            == Rows(Blank(Cells(width, height - row)) + (RowPixels(data, width, depth) + below),
                    width, height, Pow2(depth), depth, row + 1, rest)
  {
    var n := height - row + 1;
    var cc := Pow2(depth);
    FullRow(data, width, depth);
    var px := RowPixels(data, width, depth);
    RowPixelsBelow(data, width, depth);
    var pixels := Blank(Cells(width, n)) + below;
    var rowOffset := (height - row) * width;
    RowOffset(width, height, row, n - 1);
    FillRowAbove(n, width, px, below);
    assert |px + below| == Cells(width, row) by {
      CellsSucc(width, row - 1);
    }
    assert Writable(rowOffset, px, |pixels|, cc);
    var next := Overwrite(pixels, rowOffset, px);
    RowsStep(pixels, width, height, cc, depth, row, polls, data, rest);
    assert next == Blank(Cells(width, n - 1)) + (px + below);
  }

  /** When the stream delivers exactly as many scanlines as rows are still
      blank, the loop fills the bitmap from the bottom up: scanline by
      scanline, each writing one full row above the previous, however the
      transport splits the scanlines into chunks. */
  lemma {:induction false} RowsAligned(below: seq<int>, width: nat, height: nat, depth: nat, row: int,
                                       polls: seq<seq<byte>>, scanlines: seq<seq<byte>>)
    requires depth == 1 || depth == 2 || depth == 4 || depth == 8
    requires row >= 1 && |scanlines| == height - row + 1
    requires |below| == Cells(width, row - 1)
    requires Delivers(polls, Stride(width, depth), scanlines)
    ensures Rows(Blank(Cells(width, |scanlines|)) + below, width, height, Pow2(depth), depth, row, polls)
            == Ok(BottomUp(scanlines, width, depth) + below)
    decreases |polls|
  {
    if polls == [] {
      assert Blank(Cells(width, 0)) + below == below;
    } else {
      var stride := Stride(width, depth);
      DeliversFirst(polls, stride, scanlines);
      var read := Collect(polls[0], stride, polls[1..]).value;
      FullRow(read.data, width, depth);
      CellsSucc(width, row - 1);
      RowsAligned(RowPixels(read.data, width, depth) + below, width, height, depth, row + 1, read.rest, scanlines[1..]);
      AlignedLink(below, width, height, depth, row, polls, scanlines, read.rest);
    }
  }

  /** The induction step of `RowsAligned`: the first scanline's row,
      followed by the rest of the rows stacked bottom up. */
  lemma AlignedLink(below: seq<int>, width: nat, height: nat, depth: nat, row: int,
                    polls: seq<seq<byte>>, scanlines: seq<seq<byte>>, rest: seq<seq<byte>>)
    requires depth == 1 || depth == 2 || depth == 4 || depth == 8
    requires row >= 1 && |scanlines| == height - row + 1 && polls != [] && scanlines != []
    requires |below| == Cells(width, row - 1)
    requires Collect(polls[0], Stride(width, depth), polls[1..]) == Ok(Read(scanlines[0], rest))
    requires |scanlines[0]| == Stride(width, depth)
    requires Rows(Blank(Cells(width, height - row)) + (RowPixels(scanlines[0], width, depth) + below),
                  width, height, Pow2(depth), depth, row + 1, rest)
             == Ok(BottomUp(scanlines[1..], width, depth) + (RowPixels(scanlines[0], width, depth) + below))
    ensures Rows(Blank(Cells(width, height - row + 1)) + below, width, height, Pow2(depth), depth, row, polls)
            == Ok(BottomUp(scanlines, width, depth) + below)
  {
    AlignedStep(below, width, height, depth, row, polls, scanlines[0], rest);
    BottomUpCons(scanlines, width, depth, below);
  }

  /** An 8 by 2 picture at one bit per pixel whose first scanline arrives as
      one byte and then three: the loop still writes it as the bottom row. */
  lemma SplitScanlineExample(a: byte, b: byte, c: byte, d: byte, e: byte, f: byte, g: byte, h: byte)
    ensures Rows(Blank(16), 8, 2, 2, 1, 1, [[a], [b, c, d], [e, f, g, h]])
            == Ok(BottomUp([[a, b, c, d], [e, f, g, h]], 8, 1))
  {
    var polls: seq<seq<byte>> := [[a], [b, c, d], [e, f, g, h]];
    var scanlines: seq<seq<byte>> := [[a, b, c, d], [e, f, g, h]];
    assert Stride(8, 1) == 4;
    var first: seq<byte> := [a];
    assert first + [b, c, d] == scanlines[0];
    assert Collect(first, 4, polls[1..]) == Collect(scanlines[0], 4, [[e, f, g, h]]);
    assert Collect(scanlines[0], 4, [[e, f, g, h]]) == Ok(Read(scanlines[0], [[e, f, g, h]]));
    assert WithinRequests(1, 4, polls[1..]);
    var last: seq<seq<byte>> := [[e, f, g, h]];
    assert Collect(last[0], 4, last[1..]) == Ok(Read(scanlines[1], []));
    assert Delivers(last, 4, scanlines[1..]);
    assert Delivers(polls, 4, scanlines);
    assert Cells(8, 2) == 16 && Cells(8, 0) == 0 && Pow2(1) == 2;
    RowsAligned([], 8, 2, 1, 1, polls, scanlines);
    assert Blank(Cells(8, 2)) + [] == Blank(16);
    assert BottomUp(scanlines, 8, 1) + [] == BottomUp(scanlines, 8, 1);
  }

  /** Stacking the first scanline's row under the others. */
  lemma BottomUpCons(polls: seq<seq<byte>>, width: nat, depth: nat, below: seq<int>)
    requires 1 <= depth <= 8 && polls != []
    ensures BottomUp(polls[1..], width, depth) + (RowPixels(polls[0], width, depth) + below)
            == BottomUp(polls, width, depth) + below
  {
  }

  /** `row` is found in `all` as the `width` pixels from `at` on. */
  predicate RowAt(all: seq<int>, at: nat, width: nat, row: seq<int>)
  {
    at + width <= |all| && all[at..at + width] == row
  }

  /** In the stacked picture, the row `|scanlines| - 1 - k` rows from the
      top, which starts at pixel `Cells(width, |scanlines| - 1 - k)`, is
      scanline `k`. */
  lemma {:induction false} BottomUpRow(scanlines: seq<seq<byte>>, width: nat, depth: nat, k: nat)
    requires depth == 1 || depth == 2 || depth == 4 || depth == 8
    requires WholeScanlines(scanlines, width, depth)
    requires k < |scanlines|
    ensures RowAt(BottomUp(scanlines, width, depth), Cells(width, |scanlines| - 1 - k), width,
                  RowPixels(scanlines[k], width, depth))
  {
    if k > 0 {
      WholeScanlinesTail(scanlines, width, depth);
      BottomUpRow(scanlines[1..], width, depth, k - 1);
      RowAbove(scanlines, width, depth, k);
    } else {
      BottomRow(scanlines, width, depth, k);
    }
  }

  lemma BottomUpSplit(scanlines: seq<seq<byte>>, width: nat, depth: nat)
    requires 1 <= depth <= 8 && scanlines != []
    ensures BottomUp(scanlines, width, depth) == BottomUp(scanlines[1..], width, depth) + RowPixels(scanlines[0], width, depth)
  {
  }

  /** The first scanline is the bottom row. */
  lemma BottomRow(scanlines: seq<seq<byte>>, width: nat, depth: nat, k: nat)
    requires depth == 1 || depth == 2 || depth == 4 || depth == 8
    requires WholeScanlines(scanlines, width, depth) && k == 0 < |scanlines|
    ensures RowAt(BottomUp(scanlines, width, depth), Cells(width, |scanlines| - 1 - k), width,
                  RowPixels(scanlines[k], width, depth))
  {
    var rest := scanlines[1..];
    WholeScanlinesTail(scanlines, width, depth);
    BottomUpLength(rest, width, depth);
    FullRow(scanlines[0], width, depth);
    assert |rest| == |scanlines| - 1 - k;
    BottomUpSplit(scanlines, width, depth);
    SliceOfBack(BottomUp(scanlines, width, depth), BottomUp(rest, width, depth), RowPixels(scanlines[0], width, depth),
                Cells(width, |scanlines| - 1 - k), width);
  }

  /** The induction step of `BottomUpRow`: a row found among the scanlines
      after the first is found at the same place once the first scanline's
      row is appended. */
  lemma RowAbove(scanlines: seq<seq<byte>>, width: nat, depth: nat, k: nat)
    requires 1 <= depth <= 8
    requires 0 < k < |scanlines|
    requires RowAt(BottomUp(scanlines[1..], width, depth), Cells(width, |scanlines[1..]| - 1 - (k - 1)), width,
                   RowPixels(scanlines[1..][k - 1], width, depth))
    ensures RowAt(BottomUp(scanlines, width, depth), Cells(width, |scanlines| - 1 - k), width,
                  RowPixels(scanlines[k], width, depth))
  {
    var rest := scanlines[1..];
    var above := |rest| - 1 - (k - 1);
    assert above == |scanlines| - 1 - k;
    assert rest[k - 1] == scanlines[k];
    BottomUpSplit(scanlines, width, depth);
    SliceOfFront(BottomUp(scanlines, width, depth), BottomUp(rest, width, depth), RowPixels(scanlines[0], width, depth),
                 Cells(width, above), width);
  }

  lemma SliceOfFront(all: seq<int>, a: seq<int>, b: seq<int>, at: nat, n: nat)
    requires all == a + b && at + n <= |a|
    ensures all[at..at + n] == a[at..at + n]
  {
  }

  lemma SliceOfBack(all: seq<int>, a: seq<int>, b: seq<int>, at: nat, n: nat)
    requires all == a + b && at == |a| && n == |b|
    ensures at + n <= |all| && all[at..at + n] == b
  {
  }

  /** `2 ** bit_depth` entries: the colour table read into a fresh palette,
      whose other entries stay 0 (black). */
  function PaletteOf(table: seq<byte>, colorCount: nat): (colors: seq<int>)
    requires |table| / 4 <= colorCount
    ensures |colors| == colorCount
  {
    ColorTable(table) + Blank(colorCount - |table| / 4)
  }

  /** What the reads before the scanlines yield: the header fields, the
      colour table's bytes and the chunks still to come. */
  datatype Prelude = Prelude(info: Info, table: seq<byte>, rest: seq<seq<byte>>)

  /** The three reads before the scanlines on a stream that will yield
      `polls`: file header and DIB size, DIB header, then a colour table of
      `4 * 2 ** bit_depth` bytes. A bit depth outside 1..8 stops before the
      table is read. */
  function PreludeSpec(polls: seq<seq<byte>>): (r: Result<Prelude>)
    ensures r.Ok? ==> 1 <= r.value.info.depth <= 8
  {
    match Collect([], HeadLength, polls)
    case Err(e) => Err(e)
    case Ok(head) =>
      match Collect([], DibRemainder(head.data), head.rest)
      case Err(e) => Err(e)
      case Ok(dib) =>
        var info := ParseInfo(dib.data);
        if !(1 <= info.depth <= 8) then Err(UnsupportedBitDepth)
        else
          match Collect([], Pow2(info.depth) * 4, dib.rest)
          case Err(e) => Err(e)
          case Ok(table) => Ok(Prelude(info, table.data, table.rest))
  }

  /** `chunk = get_chunk(resp, 14 - 2 + 4)`, `chunk = get_chunk(resp,
      dib_header_size - 4)`, the width, height and bit depth, then
      `chunk = get_chunk(resp, palette_size * 4)`. */
  method ReadPrelude(source: ByteStream) returns (r: Result<Prelude>)
    modifies source
    ensures r == PreludeSpec(old(source.polls))
    ensures r.Ok? ==> source.polls == r.value.rest
  {
    var head := GetChunk(source, 14 - 2 + 4, []);
    if head.Err? {
      return Err(head.failure);
    }
    var dib := GetChunk(source, LeValue(Slice(head.value, 12, 16)) - 4, []);
    if dib.Err? {
      return Err(dib.failure);
    }
    var width := LeValue(Slice(dib.value, 0, 4));
    var height := LeValue(Slice(dib.value, 4, 8));
    var depth := LeValue(Slice(dib.value, 10, 12));
    if !(1 <= depth <= 8) {
      return Err(UnsupportedBitDepth);
    }
    var table := GetChunk(source, Pow2(depth) * 4, []);
    if table.Err? {
      return Err(table.failure);
    }
    return Ok(Prelude(Info(width, height, depth), table.value, source.polls));
  }

  /** The palette the colour table gives: `displayio.Palette(color_count)`
      filled entry by entry, or the failure that stops the filling loop. */
  function PaletteSpec(table: seq<byte>, colorCount: nat): (r: Result<seq<int>>)
    ensures r.Ok? <==> |table| % 4 == 0 && |table| / 4 <= colorCount
    ensures r.Ok? ==> |r.value| == colorCount
    ensures r.Err? ==> r.failure == TableFailure(|table|, colorCount)
  {
    if |table| % 4 == 0 && |table| / 4 <= colorCount then Ok(PaletteOf(table, colorCount))
    else Err(TableFailure(|table|, colorCount))
  }

  /** `palette = displayio.Palette(color_count)`, all entries 0, then the
      colour-table loop. */
  method NewPalette(table: seq<byte>, colorCount: nat) returns (r: Result<seq<int>>)
    ensures r == PaletteSpec(table, colorCount)
  {
    var palette := new int[colorCount](_ => 0);
    assert palette[..] == Blank(colorCount);
    var filled := FillPalette(palette, table);
    if filled.Fail? {
      return Err(filled.failure);
    }
    BlankSuffix(colorCount, |table| / 4);
    return Ok(palette[..]);
  }

  /** The pixels of the `width` by `height` bitmap after the scanline loop. */
  function PixelsSpec(info: Info, rest: seq<seq<byte>>): (r: Result<seq<int>>)
    requires 1 <= info.depth <= 8
    ensures r.Ok? ==> |r.value| == Area(info.width, info.height)
  {
    Rows(Blank(Area(info.width, info.height)), info.width, info.height, Pow2(info.depth), info.depth, 1, rest)
  }

  /** `bitmap = displayio.Bitmap(width, height, color_count)`, then the
      scanline loop. */
  method NewPixels(info: Info, source: ByteStream) returns (r: Result<seq<int>>)
    requires 1 <= info.depth <= 8
    modifies source
    ensures r == PixelsSpec(info, old(source.polls))
    ensures r.Ok? ==> source.polls == []
  {
    var bm := new Bitmap(info.width, info.height, Pow2(info.depth));
    var rows := DecodeRows(bm, source, info.depth);
    if rows.Fail? {
      return Err(rows.failure);
    }
    return Ok(bm.pixels[..]);
  }

  /** The whole "BM" branch after the magic on a stream that will yield `polls`. */
  function DecodeBmpSpec(polls: seq<seq<byte>>): (r: Result<Image>)
    ensures r.Ok? ==> r.value.palette.Bound? && PreludeSpec(polls).Ok?
  {
    match PreludeSpec(polls)
    case Err(e) => Err(e)
    case Ok(p) =>
      var colorCount := Pow2(p.info.depth);
      match PaletteSpec(p.table, colorCount)
      case Err(e) => Err(e)
      case Ok(palette) =>
        match PixelsSpec(p.info, p.rest)
        case Err(e) => Err(e)
        case Ok(pixels) => Ok(Image(p.info.width, p.info.height, colorCount, pixels, Bound(palette)))
  }

  /** The "BM" branch: the reads, the palette and the bitmap it allocates,
      then the scanline loop. The result is the frame handed to the display. */
  method DecodeBmp(source: ByteStream) returns (r: Result<Image>)
    modifies source
    ensures r == DecodeBmpSpec(old(source.polls))
    ensures r.Ok? ==> source.polls == []
  {
    var prelude := ReadPrelude(source);
    if prelude.Err? {
      return Err(prelude.failure);
    }
    var info := prelude.value.info;
    var colorCount := Pow2(info.depth);
    var palette := NewPalette(prelude.value.table, colorCount);
    if palette.Err? {
      return Err(palette.failure);
    }
    var pixels := NewPixels(info, source);
    if pixels.Err? {
      return Err(pixels.failure);
    }
    return Ok(Image(info.width, info.height, colorCount, pixels.value, Bound(palette.value)));
  }

  /** Every row the loop writes holds palette indices only, so a bitmap
      whose pixels are all indices keeps that property. */
  lemma {:induction false} RowsBelow(pixels: seq<int>, width: nat, height: nat, colorCount: nat, depth: nat,
                                     row: int, polls: seq<seq<byte>>)
    requires 1 <= depth <= 8 && IndicesBelow(pixels, colorCount)
    requires Rows(pixels, width, height, colorCount, depth, row, polls).Ok?
    ensures IndicesBelow(Rows(pixels, width, height, colorCount, depth, row, polls).value, colorCount)
    decreases |polls|
  {
    if polls != [] {
      RowsCase(pixels, width, height, colorCount, depth, row, polls);
      var read := Collect(polls[0], Stride(width, depth), polls[1..]).value;
      var px := RowPixels(read.data, width, depth);
      var rowOffset := (height - row) * width;
      OverwriteBelow(pixels, rowOffset, px, colorCount);
      RowsBelow(Overwrite(pixels, rowOffset, px), width, height, colorCount, depth, row + 1, read.rest);
    }
  }

  /** A decoded BMP frame is the `width` by `height` bitmap of `2 ** bit_depth`
      colours the headers announce, every pixel an index into its palette of
      as many entries. */
  lemma BmpImageShape(polls: seq<seq<byte>>)
    requires DecodeBmpSpec(polls).Ok?
    ensures PreludeSpec(polls).Ok?
    ensures var img, info := DecodeBmpSpec(polls).value, PreludeSpec(polls).value.info;
      && img.width == info.width && img.height == info.height
      && img.colorCount == Pow2(info.depth)
      && |img.pixels| == Area(img.width, img.height)
      && IndicesBelow(img.pixels, img.colorCount)
      && img.palette.Bound? && |img.palette.colors| == img.colorCount
  {
    var p := PreludeSpec(polls).value;
    var colorCount := Pow2(p.info.depth);
    RowsBelow(Blank(Area(p.info.width, p.info.height)), p.info.width, p.info.height, colorCount,
              p.info.depth, 1, p.rest);
  }
}
