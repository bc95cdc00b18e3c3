/** The "Z2" format: after the magic, every body byte is one run; its low
    six bits count pixels and its top two bits give their colour index.
    Runs fill the bitmap in raster order, across row ends. */
module Rle {
  import opened Errors
  import opened Bytes
  import opened Bits
  import opened Sink
  import opened ChunkReader

  /** `byte & 0b00111111`: the number of pixels in the run. */
  function RunLength(b: byte): (n: nat)
    ensures n < 64
  {
    b % 64
  }

  /** `(byte & 0b11000000) >> 6`: the colour index of the run. The two
      fields together are the whole byte. */
  function RunColor(b: byte): (c: nat)
    ensures c < 4
    ensures b == c * 64 + RunLength(b)
  {
    b / 64
  }

  /** The masks and the shift of the loop body compute the two fields. */
  lemma RunFields(b: byte)
    ensures ((b as bv8) & 0x3F) as int == RunLength(b)
    ensures (((b as bv8) & 0xC0) >> 6) as int == RunColor(b)
  {
    ByteBits(b);
    MaskBy63(b as bv8);
    TopTwo(b as bv8);
  }

  /** The byte that encodes a run of `count` pixels of `color`. */
  function RunByte(count: nat, color: nat): (b: byte)
    requires count < 64 && color < 4
    ensures RunLength(b) == count && RunColor(b) == color
  {
    color * 64 + count
  }

  /** The pixels one byte stands for. */
  function Run(b: byte): (px: seq<int>)
    ensures |px| == RunLength(b)
    ensures forall k | 0 <= k < |px| :: px[k] == RunColor(b)
  {
    seq(RunLength(b), _ => RunColor(b))
  }

  /** The cursor after processing `bytes`: the sum of their run lengths. */
  function Cursor(bytes: seq<byte>): (i: nat)
    ensures i <= 63 * |bytes|
  {
    if bytes == [] then 0 else Cursor(bytes[..|bytes| - 1]) + RunLength(bytes[|bytes| - 1])
  }

  /** The pixels `bytes` stand for, in raster order. */
  function Expand(bytes: seq<byte>): (px: seq<int>)
    ensures |px| == Cursor(bytes)
  {
    if bytes == [] then []
    else Expand(bytes[..|bytes| - 1]) + Run(bytes[|bytes| - 1])
  }

  /** Decoding does not depend on where the chunk boundaries fall. */
  lemma {:induction false} ExpandAppend(a: seq<byte>, b: seq<byte>)
    ensures Expand(a + b) == Expand(a) + Expand(b)
    decreases |b|
  {
    if b == [] {
      assert a + b == a;
    } else {
      var n := |b| - 1;
      assert (a + b)[..|a + b| - 1] == a + b[..n];
      assert (a + b)[|a + b| - 1] == b[n];
      ExpandAppend(a, b[..n]);
    }
  }

  /** After bytes b_1..b_k the pixels from the cursor before b_j up to the
      cursor after b_j all carry b_j's colour. */
  lemma {:induction false} RunsInPlace(bytes: seq<byte>, j: nat, p: nat)
    requires j < |bytes|
    requires Cursor(bytes[..j]) <= p < Cursor(bytes[..j + 1])
    ensures p < |Expand(bytes)|
    ensures Expand(bytes)[p] == RunColor(bytes[j])
  {
    assert bytes == bytes[..j + 1] + bytes[j + 1..];
    ExpandAppend(bytes[..j + 1], bytes[j + 1..]);
    assert bytes[..j + 1][..j] == bytes[..j];
    assert Expand(bytes[..j + 1]) == Expand(bytes[..j]) + Run(bytes[j]);
  }

  /** The body of `for byte in chunk: ... for _ in range(count): bitmap[i] = pixel_color; i += 1`,
      starting at cursor `start`; it returns the cursor after the chunk. */
  method PaintChunk(bm: Bitmap, start: nat, chunk: seq<byte>) returns (r: Result<nat>)
    requires start <= bm.pixels.Length
    modifies bm.pixels
    ensures r.Ok? <==> Writable(start, Expand(chunk), bm.pixels.Length, bm.colorCount)
    ensures r.Ok? ==>
              && r.value == start + Cursor(chunk)
              && bm.pixels[..] == Overwrite(old(bm.pixels[..]), start, Expand(chunk))
    ensures r.Err? ==> r.failure == PixelWriteRejected
  {
    ghost var initial := bm.pixels[..];
    var i := start;
    for k := 0 to |chunk|
      invariant i == start + Cursor(chunk[..k])
      invariant Painted(bm.pixels[..], initial, start, Expand(chunk[..k]), bm.colorCount)
    {
      assert chunk[..k + 1][..k] == chunk[..k];
      var ok;
      ok, i := PaintRun(bm, i, chunk[k], initial, start, Expand(chunk[..k]));
      if !ok {
        ChunkRejected(start, chunk, k, bm.pixels.Length, bm.colorCount);
        return Err(PixelWriteRejected);
      }
    }
    assert chunk[..|chunk|] == chunk;
    return Ok(i);
  }

  /** `count = byte & 0b00111111; pixel_color = (byte & 0b11000000) >> 6;
      for _ in range(count): bitmap[i] = pixel_color; i += 1`, continuing a
      run `before` painted from `start`. */
  method PaintRun(bm: Bitmap, i0: nat, b: byte, ghost initial: seq<int>, ghost start: nat, ghost before: seq<int>)
    returns (ok: bool, i: nat)
    requires i0 == start + |before|
    requires Painted(bm.pixels[..], initial, start, before, bm.colorCount)
    modifies bm.pixels
    ensures ok ==> i == i0 + RunLength(b) && Painted(bm.pixels[..], initial, start, before + Run(b), bm.colorCount)
    ensures !ok ==> !Writable(start, before + Run(b), bm.pixels.Length, bm.colorCount)
  {
    var count := ((b as bv8) & 0x3F) as int;
    var pixelColor := (((b as bv8) & 0xC0) >> 6) as int;
    RunFields(b);
    ghost var run := Run(b);
    ghost var done := before;
    i := i0;
    for n := 0 to count
      invariant done == before + run[..n]
      invariant i == start + |done|
      invariant Painted(bm.pixels[..], initial, start, done, bm.colorCount)
    {
      assert done + [pixelColor] == before + run[..n + 1];
      ghost var pixels := bm.pixels[..];
      ok := bm.Set(i, pixelColor);
      if !ok {
        assert (before + run)[..|done| + 1] == done + [pixelColor];
        RejectedWrite(start, before + run, done, pixelColor, bm.pixels.Length, bm.colorCount);
        return;
      }
      PaintedStep(pixels, initial, start, done, pixelColor, bm.colorCount);
      done := done + [pixelColor];
      i := i + 1;
    }
    assert run[..count] == run;
    ok := true;
  }

  /** A byte whose run cannot be painted leaves the whole chunk unpaintable. */
  lemma ChunkRejected(start: int, chunk: seq<byte>, k: nat, size: nat, colorCount: nat)
    requires k < |chunk|
    requires !Writable(start, Expand(chunk[..k]) + Run(chunk[k]), size, colorCount)
    ensures !Writable(start, Expand(chunk), size, colorCount)
  {
    ExpandPrefix(chunk, k);
    if Writable(start, Expand(chunk), size, colorCount) {
      WritablePrefix(start, Expand(chunk), |Expand(chunk[..k]) + Run(chunk[k])|, size, colorCount);
    }
  }

  /** The pixels of the bytes up to and including byte `k` begin the chunk's pixels. */
  lemma ExpandPrefix(chunk: seq<byte>, k: nat)
    requires k < |chunk|
    ensures var prefix := Expand(chunk[..k]) + Run(chunk[k]);
      |prefix| <= |Expand(chunk)| && Expand(chunk)[..|prefix|] == prefix
  {
    assert chunk == chunk[..k + 1] + chunk[k + 1..];
    ExpandAppend(chunk[..k + 1], chunk[k + 1..]);
    assert chunk[..k + 1][..k] == chunk[..k] && chunk[..k + 1][k] == chunk[k];
    assert Expand(chunk[..k + 1]) == Expand(chunk[..k]) + Run(chunk[k]);
  }

  /** Painting `a` and then `b` from where `a` ended succeeds exactly when
      painting `a + b` does. */
  lemma WritableRuns(a: seq<byte>, b: seq<byte>, size: nat, colorCount: nat)
    ensures Expand(a + b) == Expand(a) + Expand(b)
    ensures Writable(0, Expand(a + b), size, colorCount)
            <==> Writable(0, Expand(a), size, colorCount) && Writable(Cursor(a), Expand(b), size, colorCount)
  {
    ExpandAppend(a, b);
    WritableAppend(0, Expand(a), Expand(b), size, colorCount);
  }

  /** `for chunk in resp.iter_content(chunk_size=512)`: paint every remaining
      chunk of the body from cursor 0. */
  method DecodeZ2(bm: Bitmap, source: ByteStream) returns (r: Outcome)
    modifies bm.pixels, source
    ensures r.Pass? <==> Writable(0, Expand(Flatten(old(source.polls))), bm.pixels.Length, bm.colorCount)
    ensures r.Pass? ==>
              && source.polls == []
              && bm.pixels[..] == Overwrite(old(bm.pixels[..]), 0, Expand(Flatten(old(source.polls))))
    ensures r.Fail? ==> r.failure == PixelWriteRejected
  {
    ghost var body := Flatten(source.polls);
    ghost var blank := bm.pixels[..];
    var size, colorCount := bm.pixels.Length, bm.colorCount;
    var i := 0;
    ghost var consumed: seq<byte> := [];
    while true
      invariant body == consumed + Flatten(source.polls)
      invariant i == Cursor(consumed)
      invariant Writable(0, Expand(consumed), size, colorCount)
      invariant bm.pixels[..] == Overwrite(blank, 0, Expand(consumed))
      decreases |source.polls|
    {
      ghost var pending := source.polls;
      var next := source.Next();
      if next.None? {
        assert body == consumed;
        return Pass;
      }
      var chunk := next.value;
      ghost var rest := Flatten(source.polls);
      assert Flatten(pending) == chunk + rest;
      AppendAssoc(consumed, chunk, rest);
      WritableRuns(consumed, chunk, size, colorCount);
      var painted := PaintChunk(bm, i, chunk);
      if painted.Err? {
        WritableRuns(consumed + chunk, rest, size, colorCount);
        return Fail(painted.failure);
      }
      OverwriteAppend(blank, 0, Expand(consumed), Expand(chunk));
      i := painted.value;
      consumed := consumed + chunk;
    }
  }

  /** The length of the run of `px[0]` at the front of `px`, at most `cap`. */
  function LeadingRun(px: seq<int>, cap: nat): (n: nat)
    requires px != [] && cap >= 1
    ensures 1 <= n <= cap && n <= |px|
    ensures forall k | 0 <= k < n :: px[k] == px[0]
  {
    if cap > 1 && |px| > 1 && px[1] == px[0] then 1 + LeadingRun(px[1..], cap - 1) else 1
  }

  /** A Z2 encoder: runs of at most 63 equal pixels, one byte each. */
  function Encode(px: seq<int>): (bytes: seq<byte>)
    requires forall k | 0 <= k < |px| :: 0 <= px[k] < 4
    decreases |px|
  {
    if px == [] then []
    else
      var n := LeadingRun(px, 63);
      [RunByte(n, px[0])] + Encode(px[n..])
  }

  /** The byte for a leading run stands for exactly those pixels. */
  lemma LeadingRunExpands(px: seq<int>, n: nat, b: byte)
    requires 1 <= n <= |px| && n < 64 && 0 <= px[0] < 4
    requires forall k | 0 <= k < n :: px[k] == px[0]
    requires b == RunByte(n, px[0])
    ensures Expand([b]) + px[n..] == px
  {
    assert [b][..0] == [];
    assert Expand([b]) == Run(b);
    assert Run(b) == px[..n];
    assert px == px[..n] + px[n..];
  }

  /** Decoding what the encoder produced gives back the pixels. */
  lemma {:induction false} ExpandEncode(px: seq<int>)
    requires forall k | 0 <= k < |px| :: 0 <= px[k] < 4
    ensures Expand(Encode(px)) == px
    decreases |px|
  {
    if px != [] {
      var n := LeadingRun(px, 63);
      var b := RunByte(n, px[0]);
      ExpandEncode(px[n..]);
      ExpandAppend([b], Encode(px[n..]));
      LeadingRunExpands(px, n, b);
    }
  }
}
