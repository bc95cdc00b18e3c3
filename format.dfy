/** The two-byte magic at the start of the body selects the decoder. */
module Format {
  import opened Bytes

  datatype Format = Z2 | BMP | Z1 | Z3 | Unknown

  /** The magic that selects a known format. */
  function Magic(f: Format): (m: seq<byte>)
    requires f != Unknown
    ensures |m| == 2
  {
    match f
    case Z2 => Ascii("Z2")
    case BMP => Ascii("BM")
    case Z1 => Ascii("Z1")
    case Z3 => Ascii("Z3")
  }

  /** The comparisons `chunk == b"Z2"`, `chunk == b"BM"`, ... in the order
      the branches test them; the whole chunk is compared. */
  function Detect(chunk: seq<byte>): (f: Format)
    ensures f != Unknown ==> chunk == Magic(f)
    ensures |chunk| != 2 ==> f == Unknown
  {
    if chunk == Ascii("Z2") then Z2
    else if chunk == Ascii("BM") then BMP
    else if chunk == Ascii("Z1") then Z1
    else if chunk == Ascii("Z3") then Z3
    else Unknown
  }

  /** Formats for which the device shows the 1x1 placeholder. */
  predicate IsFallback(f: Format)
  {
    f == Z1 || f == Z3 || f == Unknown
  }

  /** Each known format is chosen by its own magic and by nothing else;
      every other chunk, of any length, is Unknown. */
  lemma DetectMatchesMagic(chunk: seq<byte>, f: Format)
    requires f != Unknown
    ensures Detect(chunk) == f <==> chunk == Magic(f)
  {
    var z2, bm, z1, z3 := Ascii("Z2"), Ascii("BM"), Ascii("Z1"), Ascii("Z3");
    assert z2[1] != bm[1] && z2[1] != z1[1] && z2[1] != z3[1];
    assert bm[0] != z1[0] && bm[0] != z3[0] && z1[1] != z3[1];
  }

  /** The magics as bytes: "Z2" is 5A 32 and "BM" is 42 4D. */
  lemma MagicBytes()
    ensures Magic(Z2) == [0x5A, 0x32] && Magic(BMP) == [0x42, 0x4D]
    ensures Magic(Z1) == [0x5A, 0x31] && Magic(Z3) == [0x5A, 0x33]
  {
  }
}
