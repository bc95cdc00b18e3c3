/** The header fields the BMP decoder reads, laid out as in the Windows
    BITMAPFILEHEADER (14 bytes) and BITMAPINFOHEADER (40 bytes), all
    little-endian, and the padded row size. */
module BmpHeader {
  import opened Bytes

  /** The first read after the magic: the other 12 bytes of the file
      header and the 4-byte size of the DIB header. */
  const HeadLength: nat := 14 - 2 + 4

  /** `int.from_bytes(data[12:16], "little") - 4`: the size of the second
      read, the DIB header without its size field. */
  function DibRemainder(head: seq<byte>): (n: int)
    ensures -4 <= n < Pow2(32) - 4
  {
    var size := Slice(head, 12, 16);
    Pow2Monotonic(8 * |size|, 32);
    LeValue(size) - 4
  }

  /** What the decoder keeps of the DIB header. */
  datatype Info = Info(width: nat, height: nat, depth: nat)

  /** Width, height and bit depth from the second read, which starts at
      offset 4 of the DIB header: bytes 0..4, 4..8 and 10..12 of it. */
  function ParseInfo(dib: seq<byte>): (info: Info)
    ensures info.width < Pow2(32) && info.height < Pow2(32) && info.depth < Pow2(16)
  {
    var w, h, d := Slice(dib, 0, 4), Slice(dib, 4, 8), Slice(dib, 10, 12);
    Pow2Monotonic(8 * |w|, 32);
    Pow2Monotonic(8 * |h|, 32);
    Pow2Monotonic(8 * |d|, 16);
    Info(LeValue(w), LeValue(h), LeValue(d))
  }

  /** `(width * bit_depth + 31) // 32 * 4`: a scanline's bits rounded up to
      whole 32-bit words, in bytes. */
  function Stride(width: nat, depth: nat): (s: nat)
    ensures s % 4 == 0
  {
    (width * depth + 31) / 32 * 4
  }

  /** The stride is the fewest bytes that hold the row's bits and are a
      multiple of 4. */
  lemma StrideAligned(width: nat, depth: nat)
    ensures var s := Stride(width, depth);
      && s % 4 == 0
      && s * 8 >= width * depth
      && ((s - 4) * 8 < width * depth || s == 0)
  {
  }

  /** The same bounds in whole bytes: at least the bytes the row's bits need,
      and fewer than 4 more. */
  lemma StrideBounds(width: nat, depth: nat)
    ensures var need := (width * depth + 7) / 8;
      need <= Stride(width, depth) < need + 4
  {
    StrideAligned(width, depth);
  }

  /** A BITMAPFILEHEADER after its magic, followed by the DIB header size. */
  function EncodeHead(fileSize: nat, dataOffset: nat, dibSize: nat): (head: seq<byte>)
    ensures |head| == HeadLength
  {
    LeEncode(fileSize, 4) + LeEncode(0, 4) + LeEncode(dataOffset, 4) + LeEncode(dibSize, 4)
  }

  /** The DIB header size written by `EncodeHead` is the one read back. */
  lemma DibRemainderOfHead(fileSize: nat, dataOffset: nat, dibSize: nat)
    requires dibSize < Pow2(32)
    ensures DibRemainder(EncodeHead(fileSize, dataOffset, dibSize)) == dibSize - 4
  {
    SizeOfEncoded(fileSize, dataOffset, dibSize);
    LeDecodeEncode(dibSize, 4);
  }

  /** Where `EncodeHead` puts the DIB header size. */
  lemma SizeOfEncoded(fileSize: nat, dataOffset: nat, dibSize: nat)
    ensures Slice(EncodeHead(fileSize, dataOffset, dibSize), 12, 16) == LeEncode(dibSize, 4)
  {
    var head := EncodeHead(fileSize, dataOffset, dibSize);
    var front := LeEncode(fileSize, 4) + LeEncode(0, 4) + LeEncode(dataOffset, 4);
    assert head == front + LeEncode(dibSize, 4) && |front| == 12;
    assert head[12..] == LeEncode(dibSize, 4);
  }

  /** A BITMAPINFOHEADER after its size field: width, height, one plane,
      bit count, no compression, image size, and zero resolution and
      colour-use fields. */
  function EncodeInfo(info: Info, imageSize: nat): (dib: seq<byte>)
    ensures |dib| == 36
  {
    LeEncode(info.width, 4) + (LeEncode(info.height, 4) + (LeEncode(1, 2) + (LeEncode(info.depth, 2)
    + (LeEncode(0, 4) + LeEncode(imageSize, 4) + LeEncode(0, 16)))))
  }

  /** The fields written by `EncodeInfo` are the ones read back. */
  lemma ParseInfoOfEncoded(info: Info, imageSize: nat)
    requires info.width < Pow2(32) && info.height < Pow2(32) && info.depth < Pow2(16)
    ensures ParseInfo(EncodeInfo(info, imageSize)) == info
  {
    FieldsOfEncoded(info, imageSize);
    LeDecodeEncode(info.width, 4);
    LeDecodeEncode(info.height, 4);
    LeDecodeEncode(info.depth, 2);
  }

  /** Where `EncodeInfo` puts the width, the height and the bit count. */
  lemma FieldsOfEncoded(info: Info, imageSize: nat)
    ensures var dib := EncodeInfo(info, imageSize);
      && Slice(dib, 0, 4) == LeEncode(info.width, 4)
      && Slice(dib, 4, 8) == LeEncode(info.height, 4)
      && Slice(dib, 10, 12) == LeEncode(info.depth, 2)
  {
    var dib := EncodeInfo(info, imageSize);
    var afterWidth := dib[4..];
    var afterHeight := afterWidth[4..];
    assert Slice(dib, 0, 4) == LeEncode(info.width, 4);
    SliceOfDrop(dib, 4, 4, 8);
    SliceOfDrop(dib, 4, 10, 12);
    SliceOfDrop(afterWidth, 4, 6, 8);
    SliceOfDrop(afterHeight, 2, 2, 4);
  }
}
