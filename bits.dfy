/** Python's `>>` and `&` on a byte, computed on `bv8` and related to
    integer division and remainder by powers of two. A byte value fits in
    eight bits, so no bit of the unbounded Python integers is lost.
    The solver settles each shift amount and each mask width as a separate
    fact; a symbolic amount is beyond it, hence one small lemma per case. */
module Bits {
  import opened Bytes

  function Bit(odd: bool): bv8
  {
    if odd then 1 else 0
  }

  /** The eight bits of `v`, assembled from its binary digits. */
  function ToBits(v: nat): (x: bv8)
    requires v < 256
  {
    if v == 0 then 0 else (ToBits(v / 2) << 1) | Bit(v % 2 == 1)
  }

  /** Appending a binary digit doubles the value and adds the digit. */
  lemma AppendBit(y: bv8, h: nat, odd: bool)
    requires y as int == h < 128
    ensures ((y << 1) | Bit(odd)) as int == 2 * h + (if odd then 1 else 0)
  {
  }

  lemma {:induction false} ToBitsValue(v: nat)
    requires v < 256
    ensures ToBits(v) as int == v
  {
    if v > 0 {
      ToBitsValue(v / 2);
      AppendBit(ToBits(v / 2), v / 2, v % 2 == 1);
    }
  }

  /** A byte read as eight bits and back is the same value. */
  lemma ByteBits(b: byte)
    ensures (b as bv8) as int == b
  {
    ToBitsValue(b);
    var x := ToBits(b);
    assert b as bv8 == x;
  }

  /** `x >> s` is `x // 2 ** s`. */
  lemma ShiftRight(x: bv8, s: nat)
    requires s < 8
    ensures (x >> s) as int == x as int / Pow2(s)
  {
    if s == 0 { Shift0(x, s); }
    else if s == 1 { Shift1(x, s); }
    else if s == 2 { Shift2(x, s); }
    else if s == 3 { Shift3(x, s); }
    else if s == 4 { Shift4(x, s); }
    else if s == 5 { Shift5(x, s); }
    else if s == 6 { Shift6(x, s); }
    else { Shift7(x, s); }
  }

  /** `x & ((1 << d) - 1)` is `x % 2 ** d`. For `d == 8` the eight-bit
      `1 << 8` is 0 and the mask is `0xFF`, the low byte of Python's 255. */
  lemma MaskLow(x: bv8, d: nat)
    requires 1 <= d <= 8
    ensures (x & ((1 << d) - 1)) as int == x as int % Pow2(d)
  {
    if d == 1 { Mask1(x, d); }
    else if d == 2 { Mask2(x, d); }
    else if d == 3 { Mask3(x, d); }
    else if d == 4 { Mask4(x, d); }
    else if d == 5 { Mask5(x, d); }
    else if d == 6 { Mask6(x, d); }
    else if d == 7 { Mask7(x, d); }
    else { Mask8(x, d); }
  }

  /** `(x & 0b11000000) >> 6` is `x // 64`. */
  lemma TopTwo(x: bv8)
    ensures ((x & 0xC0) >> 6) as int == x as int / 64
  {
  }

  // One shift amount, then one mask width, at a time.

  lemma Shift0(x: bv8, s: nat)
    requires s == 0
    ensures (x >> s) as int == x as int / Pow2(s)
  {
    assert Pow2(s) == 1;
  }

  lemma Shift1(x: bv8, s: nat)
    requires s == 1
    ensures (x >> s) as int == x as int / Pow2(s)
  {
    assert Pow2(s) == 2;
  }

  lemma Shift2(x: bv8, s: nat)
    requires s == 2
    ensures (x >> s) as int == x as int / Pow2(s)
  {
    assert Pow2(s) == 4;
  }

  lemma Shift3(x: bv8, s: nat)
    requires s == 3
    ensures (x >> s) as int == x as int / Pow2(s)
  {
    assert Pow2(s) == 8;
  }

  lemma Shift4(x: bv8, s: nat)
    requires s == 4
    ensures (x >> s) as int == x as int / Pow2(s)
  {
    assert Pow2(s) == 16;
  }

  lemma Shift5(x: bv8, s: nat)
    requires s == 5
    ensures (x >> s) as int == x as int / Pow2(s)
  {
    assert Pow2(s) == 32;
  }

  lemma Shift6(x: bv8, s: nat)
    requires s == 6
    ensures (x >> s) as int == x as int / Pow2(s)
  {
    assert Pow2(s) == 64;
  }

  lemma Shift7(x: bv8, s: nat)
    requires s == 7
    ensures (x >> s) as int == x as int / Pow2(s)
  {
    assert Pow2(s) == 128;
  }

  lemma Mask1(x: bv8, d: nat)
    requires d == 1
    ensures (x & ((1 << d) - 1)) as int == x as int % Pow2(d)
  {
    assert Pow2(d) == 2 && (1 << d) - 1 == 1 as bv8;
    MaskBy1(x);
  }

  lemma Mask2(x: bv8, d: nat)
    requires d == 2
    ensures (x & ((1 << d) - 1)) as int == x as int % Pow2(d)
  {
    assert Pow2(d) == 4 && (1 << d) - 1 == 3 as bv8;
    MaskBy3(x);
  }

  lemma Mask3(x: bv8, d: nat)
    requires d == 3
    ensures (x & ((1 << d) - 1)) as int == x as int % Pow2(d)
  {
    assert Pow2(d) == 8 && (1 << d) - 1 == 7 as bv8;
    MaskBy7(x);
  }

  lemma Mask4(x: bv8, d: nat)
    requires d == 4
    ensures (x & ((1 << d) - 1)) as int == x as int % Pow2(d)
  {
    assert Pow2(d) == 16 && (1 << d) - 1 == 15 as bv8;
    MaskBy15(x);
  }

  lemma Mask5(x: bv8, d: nat)
    requires d == 5
    ensures (x & ((1 << d) - 1)) as int == x as int % Pow2(d)
  {
    assert Pow2(d) == 32 && (1 << d) - 1 == 31 as bv8;
    MaskBy31(x);
  }

  lemma Mask6(x: bv8, d: nat)
    requires d == 6
    ensures (x & ((1 << d) - 1)) as int == x as int % Pow2(d)
  {
    assert Pow2(d) == 64 && (1 << d) - 1 == 63 as bv8;
    MaskBy63(x);
  }

  lemma Mask7(x: bv8, d: nat)
    requires d == 7
    ensures (x & ((1 << d) - 1)) as int == x as int % Pow2(d)
  {
    assert Pow2(d) == 128 && (1 << d) - 1 == 127 as bv8;
    MaskBy127(x);
  }

  lemma Mask8(x: bv8, d: nat)
    requires d == 8
    ensures (x & ((1 << d) - 1)) as int == x as int % Pow2(d)
  {
    assert Pow2(d) == 256 && (1 << d) - 1 == 255 as bv8;
    MaskBy255(x);
  }

  lemma MaskBy1(x: bv8) ensures (x & 1) as int == x as int % 2 {}
  lemma MaskBy3(x: bv8) ensures (x & 3) as int == x as int % 4 {}
  lemma MaskBy7(x: bv8) ensures (x & 7) as int == x as int % 8 {}
  lemma MaskBy15(x: bv8) ensures (x & 15) as int == x as int % 16 {}
  lemma MaskBy31(x: bv8) ensures (x & 31) as int == x as int % 32 {}
  lemma MaskBy63(x: bv8) ensures (x & 63) as int == x as int % 64 {}
  lemma MaskBy127(x: bv8) ensures (x & 127) as int == x as int % 128 {}
  lemma MaskBy255(x: bv8) ensures (x & 255) as int == x as int % 256 {}
}
