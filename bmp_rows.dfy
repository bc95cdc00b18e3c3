/** Scanline unpacking: each byte of a BMP scanline holds `8 / depth`
    palette indices, the leftmost pixel in the most significant bits.
    Pixels past the bitmap's width (row padding) are never written. */
module BmpRows {
  import opened Errors
  import opened Bytes
  import opened Bits
  import opened Sink

  /** `8 // bit_depth`. */
  function PixelsPerByte(depth: nat): (q: nat)
    requires 1 <= depth <= 8
    ensures q == 1 || q == 2 || q == 4 || q == 8
    ensures q * depth <= 8
  {
    if depth == 1 then 8
    else if depth == 2 then 4
    else if depth <= 4 then 2
    else 1
  }

  lemma PixelsPerByteQuotient(depth: nat)
    requires 1 <= depth <= 8
    ensures 8 / depth == PixelsPerByte(depth)
  {
  }

  /** `(byte >> shift) & mask` with `shift = position * depth` and
      `mask = (1 << depth) - 1`: the `depth`-bit group `position` places
      up from the least significant end. */
  function Extract(b: byte, position: nat, depth: nat): (p: nat)
    ensures p < Pow2(depth)
  {
    (b / Pow2(position * depth)) % Pow2(depth)
  }

  /** `for pixel_position in range(pixels_per_byte - 1, -1, -1)`: the
      pixels of one byte, most significant group first. */
  function Groups(b: byte, depth: nat): (px: seq<int>)
    requires 1 <= depth <= 8
    ensures |px| == PixelsPerByte(depth)
  {
    var q := PixelsPerByte(depth);
    seq(q, j requires 0 <= j < q => Extract(b, q - 1 - j, depth))
  }

  /** Pixel `j` of a byte is its group `8 / depth - 1 - j`. */
  lemma GroupsAt(b: byte, depth: nat, j: nat)
    requires 1 <= depth <= 8 && j < PixelsPerByte(depth)
    ensures Groups(b, depth)[j] == Extract(b, PixelsPerByte(depth) - 1 - j, depth)
  {
  }

  /** Every pixel a run of bytes holds, before the width cuts them off:
      `8 // bit_depth` of them per byte. */
  function Unpack(data: seq<byte>, depth: nat): (px: seq<int>)
    requires 1 <= depth <= 8
    ensures |px| == |data| * PixelsPerByte(depth)
  {
    if data == [] then []
    else
      MulStep(|data| - 1, PixelsPerByte(depth));
      Unpack(data[..|data| - 1], depth) + Groups(data[|data| - 1], depth)
  }

  lemma {:induction false} UnpackAppend(a: seq<byte>, b: seq<byte>, depth: nat)
    requires 1 <= depth <= 8
    ensures Unpack(a + b, depth) == Unpack(a, depth) + Unpack(b, depth)
    decreases |b|
  {
    if b == [] {
      assert a + b == a;
    } else {
      var n := |b| - 1;
      assert (a + b)[..|a + b| - 1] == a + b[..n];
      assert (a + b)[|a + b| - 1] == b[n];
      UnpackAppend(a, b[..n], depth);
    }
  }

  lemma MulStep(n: nat, q: nat)
    ensures (n + 1) * q == n * q + q
  {
  }

  /** Euclidean division by a pixels-per-byte count. */
  lemma DivMod(j: nat, q: nat, a: nat, r: nat)
    requires q == 1 || q == 2 || q == 4 || q == 8
    requires r < q && j == a * q + r
    ensures j / q == a && j % q == r
  {
  }

  /** Pixel `j` of the unpacked bytes is group `q - 1 - j % q` of byte `j / q`,
      where `q` pixels share a byte. */
  lemma {:induction false} UnpackAt(data: seq<byte>, depth: nat, j: nat)
    requires 1 <= depth <= 8
    requires j < |data| * PixelsPerByte(depth)
    ensures var q := PixelsPerByte(depth);
      && j < |Unpack(data, depth)| && j / q < |data|
      && Unpack(data, depth)[j] == Extract(data[j / q], q - 1 - j % q, depth)
  {
    var q := PixelsPerByte(depth);
    var n := |data| - 1;
    if j < n * q {
      UnpackAt(data[..n], depth, j);
      assert data[..n][j / q] == data[j / q];
    } else {
      DivMod(j, q, n, j - n * q);
    }
  }

  function Min(a: nat, b: nat): nat
  {
    if a <= b then a else b
  }

  /** The pixels a scanline writes into a bitmap `width` pixels wide. */
  function RowPixels(data: seq<byte>, width: nat, depth: nat): (px: seq<int>)
    requires 1 <= depth <= 8
    ensures |px| <= width
  {
    var all := Unpack(data, depth);
    all[..Min(width, |all|)]
  }

  /** A row holds the width's pixels, or all the bytes hold when they are fewer. */
  lemma RowPixelsLength(data: seq<byte>, width: nat, depth: nat)
    requires 1 <= depth <= 8
    ensures |RowPixels(data, width, depth)| == Min(width, |data| * PixelsPerByte(depth))
  {
  }

  /** Every pixel of a row is a valid index into a palette of `2 ** bit_depth` colours. */
  lemma RowPixelsBelow(data: seq<byte>, width: nat, depth: nat)
    requires 1 <= depth <= 8
    ensures forall j | 0 <= j < |RowPixels(data, width, depth)| :: 0 <= RowPixels(data, width, depth)[j] < Pow2(depth)
  {
    ValuesBelow(data, depth);
  }

  lemma {:induction false} ValuesBelow(data: seq<byte>, depth: nat)
    requires 1 <= depth <= 8
    ensures forall j | 0 <= j < |Unpack(data, depth)| :: 0 <= Unpack(data, depth)[j] < Pow2(depth)
  {
    if data != [] {
      var n := |data| - 1;
      ValuesBelow(data[..n], depth);
      var g := Groups(data[n], depth);
      forall j | 0 <= j < |g| ensures 0 <= g[j] < Pow2(depth) {
        GroupsAt(data[n], depth, j);
      }
    }
  }

  /** `shift = pixel_position * bit_depth; mask = (1 << bit_depth) - 1;
      pixel = (byte >> shift) & mask`. */
  function PixelAt(b: byte, position: nat, depth: nat): (pixel: int)
    requires 1 <= depth <= 8 && position * depth < 8
    ensures pixel == Extract(b, position, depth)
  {
    var shift := position * depth;
    ShiftMask(b, shift, depth);
    (((b as bv8) >> shift) & ((1 << depth) - 1)) as int
  }

  /** `(byte >> shift) & ((1 << depth) - 1)` is the division and modulo
      form of `Extract`. */
  lemma ShiftMask(b: byte, shift: nat, depth: nat)
    requires 1 <= depth <= 8 && shift < 8
    ensures (((b as bv8) >> shift) & ((1 << depth) - 1)) as int == (b / Pow2(shift)) % Pow2(depth)
  {
    ShiftOfByte(b, shift);
    MaskOfValue((b as bv8) >> shift, b / Pow2(shift), depth);
  }

  lemma ShiftOfByte(b: byte, shift: nat)
    requires shift < 8
    ensures ((b as bv8) >> shift) as int == b / Pow2(shift)
  {
    ByteBits(b);
    ShiftRight(b as bv8, shift);
  }

  lemma MaskOfValue(y: bv8, v: nat, depth: nat)
    requires 1 <= depth <= 8 && y as int == v
    ensures (y & ((1 << depth) - 1)) as int == v % Pow2(depth)
  {
    MaskLow(y, depth);
  }

  /** The inner loop's bookkeeping for the pixel at `position` of byte `b`:
      the shift and mask extract group `position`, the next one due. */
  lemma GroupStep(b: byte, depth: nat, position: nat, before: seq<int>, produced: seq<int>)
    requires 1 <= depth <= 8 && position < PixelsPerByte(depth)
    requires produced == before + Groups(b, depth)[..PixelsPerByte(depth) - 1 - position]
    ensures produced + [Extract(b, position, depth)] == before + Groups(b, depth)[..PixelsPerByte(depth) - position]
    ensures |produced| < |before + Groups(b, depth)|
    ensures (before + Groups(b, depth))[..|produced| + 1] == produced + [Extract(b, position, depth)]
  {
    var g := Groups(b, depth);
    var n := PixelsPerByte(depth) - 1 - position;
    assert g[..n + 1] == g[..n] + [g[n]];
    assert (before + g)[..|produced| + 1] == before + g[..n + 1];
  }

  /** How far a row has been written into `pixels`, a bitmap `width` pixels
      wide with `colorCount` colours: `index` pixels of the `produced` ones,
      which are all of them until the width is reached. */
  ghost predicate Progress(width: nat, colorCount: nat, pixels: seq<int>, initial: seq<int>,
                           rowOffset: int, produced: seq<int>, index: nat)
  {
    && index == Min(width, |produced|)
    && Painted(pixels, initial, rowOffset, produced[..index], colorCount)
  }

  /** A pixel past the width is produced but not written. */
  lemma SkipStep(width: nat, colorCount: nat, pixels: seq<int>, initial: seq<int>,
                 rowOffset: int, produced: seq<int>, index: nat, v: int)
    requires Progress(width, colorCount, pixels, initial, rowOffset, produced, index)
    requires index >= width
    ensures Progress(width, colorCount, pixels, initial, rowOffset, produced + [v], index)
  {
    assert (produced + [v])[..index] == produced[..index];
  }

  /** A pixel before the width that the bitmap accepted is written. */
  lemma WriteStep(width: nat, colorCount: nat, pixels: seq<int>, initial: seq<int>,
                  rowOffset: int, produced: seq<int>, index: nat, v: int)
    requires Progress(width, colorCount, pixels, initial, rowOffset, produced, index)
    requires index < width && 0 <= rowOffset + index < |pixels| && 0 <= v < colorCount
    ensures Progress(width, colorCount, pixels[rowOffset + index := v], initial, rowOffset, produced + [v], index + 1)
  {
    assert produced[..index] == produced;
    assert (produced + [v])[..index + 1] == produced + [v];
    PaintedStep(pixels, initial, rowOffset, produced, v, colorCount);
  }

  /** The pixels of one byte: `for pixel_position in range(pixels_per_byte - 1, -1, -1)`,
      writing each while `index < width`. It returns whether every write
      was accepted, and the new `index`. */
  method WriteByte(bm: Bitmap, rowOffset: int, b: byte, depth: nat, index0: nat,
                   ghost initial: seq<int>, ghost before: seq<int>)
    returns (ok: bool, index: nat)
    requires 1 <= depth <= 8
    requires Progress(bm.width, bm.colorCount, bm.pixels[..], initial, rowOffset, before, index0)
    modifies bm.pixels
    ensures ok ==> Progress(bm.width, bm.colorCount, bm.pixels[..], initial, rowOffset, before + Groups(b, depth), index)
    ensures !ok ==>
              var after := before + Groups(b, depth);
              !Writable(rowOffset, after[..Min(bm.width, |after|)], bm.pixels.Length, bm.colorCount)
  {
    var size, colorCount, width := bm.pixels.Length, bm.colorCount, bm.width;
    PixelsPerByteQuotient(depth);
    var pixelsPerByte := 8 / depth;
    ghost var groups := Groups(b, depth);
    ghost var produced := before;
    index := index0;
    for position := pixelsPerByte downto 0
      invariant produced == before + groups[..pixelsPerByte - position]
      invariant Progress(width, colorCount, bm.pixels[..], initial, rowOffset, produced, index)
    {
      var pixel := PixelAt(b, position, depth);
      GroupStep(b, depth, position, before, produced);
      var ok;
      ok, index := WritePixel(bm, rowOffset, pixel, index, initial, produced);
      if !ok {
        ByteRejected(rowOffset, before, groups, produced, pixel, width, size, colorCount);
        return false, index;
      }
      produced := produced + [pixel];
    }
    assert groups[..pixelsPerByte] == groups;
    return true, index;
  }

  /** `if index < width: bitmap[row_offset + index] = pixel; index += 1`. */
  method WritePixel(bm: Bitmap, rowOffset: int, pixel: int, index0: nat,
                    ghost initial: seq<int>, ghost produced: seq<int>)
    returns (ok: bool, index: nat)
    requires Progress(bm.width, bm.colorCount, bm.pixels[..], initial, rowOffset, produced, index0)
    modifies bm.pixels
    ensures ok ==> Progress(bm.width, bm.colorCount, bm.pixels[..], initial, rowOffset, produced + [pixel], index)
    ensures !ok ==>
              && |produced| < bm.width
              && !(0 <= rowOffset + |produced| < bm.pixels.Length && 0 <= pixel < bm.colorCount)
  {
    index := index0;
    if index < bm.width {
      ghost var pixels := bm.pixels[..];
      ok := bm.Set(rowOffset + index, pixel);
      if !ok {
        return;
      }
      WriteStep(bm.width, bm.colorCount, pixels, initial, rowOffset, produced, index, pixel);
      index := index + 1;
    } else {
      SkipStep(bm.width, bm.colorCount, bm.pixels[..], initial, rowOffset, produced, index, pixel);
      ok := true;
    }
  }

  /** A rejected write inside a byte's pixels: the row up to that byte is
      not writable. */
  lemma ByteRejected(start: int, before: seq<int>, groups: seq<int>, produced: seq<int>, v: int,
                     width: nat, size: nat, colorCount: nat)
    requires |produced| < |before + groups| && |produced| < width
    requires (before + groups)[..|produced| + 1] == produced + [v]
    requires !(0 <= start + |produced| < size && 0 <= v < colorCount)
    ensures var after := before + groups;
      !Writable(start, after[..Min(width, |after|)], size, colorCount)
  {
    var after := before + groups;
    var px := after[..Min(width, |after|)];
    assert px[..|produced| + 1] == produced + [v];
    RejectedWrite(start, px, produced, v, size, colorCount);
  }

  /** The row's pixels up to the first `j` bytes, cut at the width, start
      the row's pixels. */
  lemma RowPixelsPrefix(data: seq<byte>, width: nat, depth: nat, j: nat)
    requires 1 <= depth <= 8 && j <= |data|
    ensures var part := Unpack(data[..j], depth);
      var m := Min(width, |part|);
      m <= |RowPixels(data, width, depth)| && part[..m] == RowPixels(data, width, depth)[..m]
  {
    assert data == data[..j] + data[j..];
    UnpackAppend(data[..j], data[j..], depth);
  }

  /** One scanline: `for byte in data: ...`, writing the row's pixels from
      `row_offset`. */
  method WriteRow(bm: Bitmap, rowOffset: int, data: seq<byte>, depth: nat) returns (r: Outcome)
    requires 1 <= depth <= 8
    modifies bm.pixels
    ensures r.Pass? <==> Writable(rowOffset, RowPixels(data, bm.width, depth), bm.pixels.Length, bm.colorCount)
    ensures r.Pass? ==>
              bm.pixels[..] == Overwrite(old(bm.pixels[..]), rowOffset, RowPixels(data, bm.width, depth))
    ensures r.Fail? ==> r.failure == PixelWriteRejected
  {
    ghost var initial := bm.pixels[..];
    var index := 0;
    ghost var produced: seq<int> := [];
    for k := 0 to |data|
      invariant produced == Unpack(data[..k], depth)
      invariant Progress(bm.width, bm.colorCount, bm.pixels[..], initial, rowOffset, produced, index)
    {
      assert data[..k + 1][..k] == data[..k];
      var ok;
      ok, index := WriteByte(bm, rowOffset, data[k], depth, index, initial, produced);
      produced := produced + Groups(data[k], depth);
      if !ok {
        RowPixelsPrefix(data, bm.width, depth, k + 1);
        RowCut(rowOffset, produced, RowPixels(data, bm.width, depth), bm.width, bm.pixels.Length, bm.colorCount);
        return Fail(PixelWriteRejected);
      }
    }
    assert data[..|data|] == data;
    return Pass;
  }

  /** A cut-off part of a row that is not writable leaves the row not writable. */
  lemma RowCut(start: int, part: seq<int>, row: seq<int>, width: nat, size: nat, colorCount: nat)
    requires Min(width, |part|) <= |row| && part[..Min(width, |part|)] == row[..Min(width, |part|)]
    requires !Writable(start, part[..Min(width, |part|)], size, colorCount)
    ensures !Writable(start, row, size, colorCount)
  {
    if Writable(start, row, size, colorCount) {
      WritablePrefix(start, row, Min(width, |part|), size, colorCount);
    }
  }
}
