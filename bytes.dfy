/** Bytes, powers of two, Python-style slicing and the little-endian
    conversions `int.from_bytes(b, "little")` and `int.to_bytes(n, "little")`. */
module Bytes {
  import opened Errors

  type byte = b: int | 0 <= b < 256

  function Pow2(n: nat): (r: nat)
    ensures r >= 1
  {
    if n == 0 then 1 else 2 * Pow2(n - 1)
  }

  lemma {:induction false} Pow2Add(a: nat, b: nat)
    ensures Pow2(a + b) == Pow2(a) * Pow2(b)
  {
    if a > 0 {
      Pow2Add(a - 1, b);
    }
  }

  lemma {:induction false} Pow2Monotonic(a: nat, b: nat)
    requires a <= b
    ensures Pow2(a) <= Pow2(b)
  {
    if a < b {
      Pow2Monotonic(a, b - 1);
    }
  }

  /** `s[lo:hi]` for non-negative bounds: both ends are clamped to the length. */
  function Slice(s: seq<byte>, lo: nat, hi: nat): (r: seq<byte>)
    ensures |r| == if lo < hi && lo < |s| then (if hi <= |s| then hi else |s|) - lo else 0
    ensures forall k | 0 <= k < |r| :: r[k] == s[lo + k]
  {
    var a := if lo <= |s| then lo else |s|;
    var b := if hi <= |s| then hi else |s|;
    if a <= b then s[a..b] else []
  }

  /** `int.from_bytes(s, "little")`. */
  function LeValue(s: seq<byte>): (v: nat)
    ensures v < Pow2(8 * |s|)
  {
    if s == [] then 0
    else
      Pow2Add(8, 8 * (|s| - 1));
      assert Pow2(8) == 256;
      s[0] + 256 * LeValue(s[1..])
  }

  /** The `n` least significant bytes of `v`, least significant first. */
  function LeEncode(v: nat, n: nat): (s: seq<byte>)
    ensures |s| == n
  {
    if n == 0 then [] else [v % 256] + LeEncode(v / 256, n - 1)
  }

  lemma {:induction false} LeDecodeEncode(v: nat, n: nat)
    requires v < Pow2(8 * n)
    ensures LeValue(LeEncode(v, n)) == v
  {
    if n > 0 {
      Pow2Add(8, 8 * (n - 1));
      assert Pow2(8) == 256;
      LeDecodeEncode(v / 256, n - 1);
      assert LeEncode(v, n)[1..] == LeEncode(v / 256, n - 1);
    }
  }

  lemma {:induction false} LeEncodeDecode(s: seq<byte>)
    ensures LeEncode(LeValue(s), |s|) == s
  {
    if s != [] {
      LeEncodeDecode(s[1..]);
      assert (s[0] + 256 * LeValue(s[1..])) / 256 == LeValue(s[1..]);
    }
  }

  /** `v.to_bytes(n, "little")`: OverflowError unless 0 <= v < 2^(8n). */
  function ToBytes(v: int, n: nat): (r: Option<seq<byte>>)
    ensures r.Some? <==> 0 <= v < Pow2(8 * n)
    ensures r.Some? ==> |r.value| == n && LeValue(r.value) == v
  {
    if 0 <= v < Pow2(8 * n) then
      LeDecodeEncode(v, n);
      Some(LeEncode(v, n))
    else None
  }

  /** A slice read after dropping a prefix. */
  lemma SliceOfDrop(s: seq<byte>, k: nat, lo: nat, hi: nat)
    requires k <= lo <= hi <= |s|
    ensures s[lo..hi] == s[k..][lo - k..hi - k]
  {
  }

  lemma AppendAssoc(a: seq<byte>, b: seq<byte>, c: seq<byte>)
    ensures a + (b + c) == a + b + c
  {
  }

  /** All bytes of a sequence of chunks, in order. */
  function Flatten(chunks: seq<seq<byte>>): (r: seq<byte>)
  {
    if chunks == [] then [] else chunks[0] + Flatten(chunks[1..])
  }

  lemma {:induction false} FlattenAppend(a: seq<seq<byte>>, b: seq<seq<byte>>)
    ensures Flatten(a + b) == Flatten(a) + Flatten(b)
  {
    if a != [] {
      assert (a + b)[1..] == a[1..] + b;
      FlattenAppend(a[1..], b);
    } else {
      assert a + b == b;
    }
  }

  /** The bytes of an ASCII text. */
  function Ascii(text: string): (r: seq<byte>)
    requires forall k | 0 <= k < |text| :: text[k] as int < 128
    ensures |r| == |text|
    ensures forall k | 0 <= k < |text| :: r[k] == text[k] as int
  {
    if text == [] then [] else [text[0] as int] + Ascii(text[1..])
  }
}
