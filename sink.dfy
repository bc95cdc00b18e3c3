/** The decode target: an indexed bitmap (`displayio.Bitmap`) written one
    pixel at a time, and the plain value a finished frame stands for. */
module Sink {

  /** `displayio.Bitmap(width, height, colorCount)`: a row-major buffer of
      `width * height` palette indices, all 0 when allocated. */
  class Bitmap {
    const width: nat
    const height: nat
    const colorCount: nat
    const pixels: array<int>

    constructor (width: nat, height: nat, colorCount: nat)
      ensures this.width == width && this.height == height && this.colorCount == colorCount
      ensures fresh(pixels)
      ensures pixels[..] == Blank(Area(width, height))
    {
      this.width := width;
      this.height := height;
      this.colorCount := colorCount;
      pixels := new int[Area(width, height)](_ => 0);
    }

    /** `bitmap[i] = v`: rejected (the binding raises) when `i` is not a
        pixel of the bitmap or `v` is not a valid index for its colour count. */
    method Set(i: int, v: int) returns (ok: bool)
      modifies pixels
      ensures ok <==> 0 <= i < pixels.Length && 0 <= v < colorCount
      ensures pixels[..] == if ok then old(pixels[..])[i := v] else old(pixels[..])
    {
      ok := 0 <= i < pixels.Length && 0 <= v < colorCount;
      if ok {
        pixels[i] := v;
      }
    }
  }

  /** The number of pixels of a `width` by `height` bitmap. */
  function Area(width: nat, height: nat): nat
  {
    width * height
  }

  function Blank(n: nat): (s: seq<int>)
    ensures |s| == n && forall k | 0 <= k < n :: s[k] == 0
  {
    seq(n, _ => 0)
  }

  lemma BlankSuffix(n: nat, k: nat)
    requires k <= n
    ensures Blank(n)[k..] == Blank(n - k)
  {
  }

  /** Writing `px` one pixel at a time from position `start` of a buffer of
      `size` pixels with `colorCount` colours succeeds at every step. */
  predicate Writable(start: int, px: seq<int>, size: nat, colorCount: nat)
  {
    px == []
    || (0 <= start && start + |px| <= size
        && forall k | 0 <= k < |px| :: 0 <= px[k] < colorCount)
  }

  /** A run of writes fails at its first rejected pixel, so a run that is
      not writable cannot be completed by writing more. */
  lemma WritablePrefix(start: int, px: seq<int>, n: nat, size: nat, colorCount: nat)
    requires n <= |px|
    requires Writable(start, px, size, colorCount)
    ensures Writable(start, px[..n], size, colorCount)
  {
  }

  /** A run whose next pixel is rejected is not writable as a whole. */
  lemma RejectedWrite(start: int, px: seq<int>, done: seq<int>, v: int, size: nat, colorCount: nat)
    requires |done| < |px| && px[..|done| + 1] == done + [v]
    requires !(0 <= start + |done| < size && 0 <= v < colorCount)
    ensures !Writable(start, px, size, colorCount)
  {
    assert px[|done|] == (done + [v])[|done|] == v;
  }

  /** Writing `a` then `b` right after it succeeds exactly when each part does. */
  lemma WritableAppend(start: int, a: seq<int>, b: seq<int>, size: nat, colorCount: nat)
    requires 0 <= start
    ensures Writable(start, a + b, size, colorCount)
            <==> Writable(start, a, size, colorCount) && Writable(start + |a|, b, size, colorCount)
  {
    if Writable(start, a, size, colorCount) && Writable(start + |a|, b, size, colorCount) && a + b != [] {
      forall k | 0 <= k < |a + b| ensures 0 <= (a + b)[k] < colorCount {
        if k >= |a| {
          assert (a + b)[k] == b[k - |a|];
        }
      }
    }
    if Writable(start, a + b, size, colorCount) {
      assert a == (a + b)[..|a|];
      WritablePrefix(start, a + b, |a|, size, colorCount);
      if b != [] {
        forall k | 0 <= k < |b| ensures 0 <= b[k] < colorCount {
          assert b[k] == (a + b)[|a| + k];
        }
      }
    }
  }

  /** `s` with the run `px` written from position `start` on. */
  function Overwrite(s: seq<int>, start: int, px: seq<int>): (r: seq<int>)
    requires px == [] || (0 <= start && start + |px| <= |s|)
    ensures |r| == |s|
  {
    if px == [] then s else s[..start] + px + s[start + |px|..]
  }

  /** Pixel `k` after the writes: from the run where it was written, as before elsewhere. */
  lemma OverwriteAt(s: seq<int>, start: int, px: seq<int>, k: nat)
    requires px == [] || (0 <= start && start + |px| <= |s|)
    requires k < |s|
    ensures Overwrite(s, start, px)[k] == if px != [] && start <= k < start + |px| then px[k - start] else s[k]
  {
  }

  /** Writing `a` and then `b` right after it is writing `a + b`. */
  lemma OverwriteAppend(s: seq<int>, start: int, a: seq<int>, b: seq<int>)
    requires 0 <= start && start + |a| + |b| <= |s|
    ensures Overwrite(Overwrite(s, start, a), start + |a|, b) == Overwrite(s, start, a + b)
  {
    var lhs, rhs := Overwrite(Overwrite(s, start, a), start + |a|, b), Overwrite(s, start, a + b);
    forall k | 0 <= k < |s| ensures lhs[k] == rhs[k] {
      OverwriteAt(s, start, a, k);
      OverwriteAt(Overwrite(s, start, a), start + |a|, b, k);
      OverwriteAt(s, start, a + b, k);
      if start + |a| <= k < start + |a| + |b| {
        assert (a + b)[k - start] == b[k - start - |a|];
      } else if start <= k < start + |a| {
        assert (a + b)[k - start] == a[k - start];
      }
    }
  }

  /** Writing one more pixel after a run is a single update. */
  lemma OverwriteOne(s: seq<int>, start: int, px: seq<int>, v: int)
    requires 0 <= start && start + |px| < |s|
    ensures Overwrite(s, start, px + [v]) == Overwrite(s, start, px)[start + |px| := v]
  {
    var lhs, rhs := Overwrite(s, start, px + [v]), Overwrite(s, start, px)[start + |px| := v];
    forall k | 0 <= k < |s| ensures lhs[k] == rhs[k] {
      OverwriteAt(s, start, px + [v], k);
      OverwriteAt(s, start, px, k);
    }
  }

  /** `pixels` is `initial` with the run `done` written from `start`, every
      write of it accepted. */
  ghost predicate Painted(pixels: seq<int>, initial: seq<int>, start: int, done: seq<int>, colorCount: nat)
  {
    && |initial| == |pixels|
    && Writable(start, done, |pixels|, colorCount)
    && pixels == Overwrite(initial, start, done)
  }

  /** An accepted write of the next pixel extends the painted run. */
  lemma PaintedStep(pixels: seq<int>, initial: seq<int>, start: int, done: seq<int>, v: int, colorCount: nat)
    requires Painted(pixels, initial, start, done, colorCount)
    requires 0 <= start + |done| < |pixels| && 0 <= v < colorCount
    ensures Painted(pixels[start + |done| := v], initial, start, done + [v], colorCount)
  {
    OverwriteOne(initial, start, done, v);
    WritableAppend(start, done, [v], |pixels|, colorCount);
  }

  /** Every pixel is an index into a palette of `colorCount` colours. */
  predicate IndicesBelow(pixels: seq<int>, colorCount: nat)
  {
    forall k | 0 <= k < |pixels| :: 0 <= pixels[k] < colorCount
  }

  /** Accepted writes keep every pixel a valid palette index. */
  lemma OverwriteBelow(s: seq<int>, start: int, px: seq<int>, colorCount: nat)
    requires IndicesBelow(s, colorCount)
    requires Writable(start, px, |s|, colorCount)
    ensures IndicesBelow(Overwrite(s, start, px), colorCount)
  {
    forall k | 0 <= k < |s| ensures 0 <= Overwrite(s, start, px)[k] < colorCount {
      OverwriteAt(s, start, px, k);
    }
  }

  /** A decoded frame as a value: dimensions, colour count, pixel indices
      and, when the branch that decoded it assigned one, the palette. */
  datatype Image = Image(width: nat, height: nat, colorCount: nat, pixels: seq<int>, palette: PaletteSlot)

  /** The local `palette` after the format branch: assigned, or never bound. */
  datatype PaletteSlot = Unbound | Bound(colors: seq<int>)
}
