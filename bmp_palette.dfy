/** The BMP colour table: one 4-byte entry per colour, stored blue, green,
    red, unused, turned into the `0xRRGGBB` values of a display palette. */
module BmpPalette {
  import opened Errors
  import opened Bytes

  /** `(red << 16) + (green << 8) + blue`: a `0xRRGGBB` value. */
  function Rgb(blue: byte, green: byte, red: byte): (c: nat)
    ensures c <= 0xFF_FFFF
  {
    red * 0x1_0000 + green * 0x100 + blue
  }

  /** Each channel can be read back from its own byte of the packed colour. */
  lemma RgbChannels(blue: byte, green: byte, red: byte)
    ensures var c := Rgb(blue, green, red);
      c / 0x1_0000 == red && c / 0x100 % 0x100 == green && c % 0x100 == blue
  {
    var c := Rgb(blue, green, red);
    var low := green * 0x100 + blue;
    assert c == red * 0x1_0000 + low && low < 0x1_0000;
    var high := red * 0x100 + green;
    assert c == high * 0x100 + blue;
    assert c / 0x100 == high;
  }

  /** The palette entries of a colour table, in table order; a trailing
      group of fewer than 4 bytes holds no entry. */
  function ColorTable(data: seq<byte>): (table: seq<int>)
    ensures |table| == |data| / 4
    ensures forall k | 0 <= k < |table| ::
              table[k] == Rgb(data[4 * k], data[4 * k + 1], data[4 * k + 2])
  {
    if |data| < 4 then [] else [Rgb(data[0], data[1], data[2])] + ColorTable(data[4..])
  }

  /** Reading one more whole entry appends its colour to the table. */
  lemma ColorTableExtend(data: seq<byte>, i: nat)
    requires i % 4 == 0 && i + 4 <= |data|
    ensures ColorTable(data[..i + 4]) == ColorTable(data[..i]) + [Rgb(data[i], data[i + 1], data[i + 2])]
  {
    var a, b := ColorTable(data[..i + 4]), ColorTable(data[..i]) + [Rgb(data[i], data[i + 1], data[i + 2])];
    assert |a| == |b|;
    forall k | 0 <= k < |a| ensures a[k] == b[k] {
      if k < i / 4 {
        assert data[..i + 4][4 * k] == data[..i][4 * k];
        assert data[..i + 4][4 * k + 1] == data[..i][4 * k + 1];
        assert data[..i + 4][4 * k + 2] == data[..i][4 * k + 2];
      }
    }
  }

  /** Storing entry `i / 4` into a palette that holds the entries before it. */
  lemma StoreEntry(initial: seq<int>, data: seq<byte>, i: nat)
    requires i % 4 == 0 && i + 4 <= |data| && i / 4 < |initial|
    ensures (ColorTable(data[..i]) + initial[i / 4..])[i / 4 := Rgb(data[i], data[i + 1], data[i + 2])]
            == ColorTable(data[..i + 4]) + initial[(i + 4) / 4..]
  {
    ColorTableExtend(data, i);
    var lhs := (ColorTable(data[..i]) + initial[i / 4..])[i / 4 := Rgb(data[i], data[i + 1], data[i + 2])];
    var rhs := ColorTable(data[..i + 4]) + initial[(i + 4) / 4..];
    assert |lhs| == |rhs|;
    forall k | 0 <= k < |lhs| ensures lhs[k] == rhs[k] {
      if k > i / 4 {
        assert lhs[k] == initial[k];
      }
    }
  }

  /** Which check stops a colour table of `n` bytes read into a palette of
      `entries` colours: an entry past the end is met before a short last group
      whenever the table holds more whole entries than the palette. */
  function TableFailure(n: nat, entries: nat): (f: Failure)
    ensures f == PaletteIndexOutOfRange <==> n / 4 > entries
    ensures f == PaletteEntryShort <==> n / 4 <= entries
  {
    if n / 4 > entries then PaletteIndexOutOfRange else PaletteEntryShort
  }

  /** `for i in range(0, len(data), 4): blue, green, red, _ = data[i:i+4];
      palette[i // 4] = ...`. A short last group fails to unpack, and an
      entry past the palette's end is rejected. */
  method FillPalette(palette: array<int>, data: seq<byte>) returns (r: Outcome)
    modifies palette
    ensures r.Pass? <==> |data| % 4 == 0 && |data| / 4 <= palette.Length
    ensures r.Pass? ==> palette[..] == ColorTable(data) + old(palette[..])[|data| / 4..]
    ensures r.Fail? ==> r.failure == TableFailure(|data|, palette.Length)
  {
    ghost var initial := palette[..];
    var i := 0;
    while i < |data|
      invariant 0 <= i <= |data| && i % 4 == 0 && i / 4 <= palette.Length
      invariant palette[..] == ColorTable(data[..i]) + initial[i / 4..]
    {
      Quarters(|data|, i);
      if |data| - i < 4 {
        return Fail(PaletteEntryShort);
      }
      var blue, green, red := data[i], data[i + 1], data[i + 2];
      if i / 4 >= palette.Length {
        return Fail(PaletteIndexOutOfRange);
      }
      palette[i / 4] := Rgb(blue, green, red);
      StoreEntry(initial, data, i);
      i := i + 4;
    }
    Quarters(|data|, i);
    assert data[..i] == data;
    return Pass;
  }

  /** Where the loop `for i in range(0, n, 4)` stands against the `n / 4`
      whole entries of the table. */
  lemma Quarters(n: nat, i: nat)
    requires i % 4 == 0 && i <= n
    ensures i < n < i + 4 ==> n / 4 == i / 4 && n % 4 != 0
    ensures n >= i + 4 ==> n / 4 >= i / 4 + 1
    ensures n == i ==> n / 4 == i / 4 && n % 4 == 0
  {
  }

  /** The entry stored as 10 20 30 00 (blue 0x10, green 0x20, red 0x30) is 0x302010. */
  lemma ColorTableExample()
    ensures ColorTable([0x10, 0x20, 0x30, 0x00]) == [0x302010]
  {
  }
}
