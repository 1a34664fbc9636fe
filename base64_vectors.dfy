/** The encoder's test vectors, proved about the reference encoding (which
    `Base64.Encode` computes). Inputs and outputs are ASCII codes, written in
    groups of 3 input bytes and 4 output symbols; the doc comment of each
    lemma gives them as text. */
module Base64Vectors {
  import opened Base64
  import opened Base64Properties

  /** 3 bytes encode to the Table 1 symbols of their four 6-bit groups. */
  lemma TripleByTable(b0: byte, b1: byte, b2: byte)
    ensures var g := GroupSextets(b0, b1, b2);
      Encoded([b0, b1, b2]) ==
        [TableSymbol(g[0]), TableSymbol(g[1]), TableSymbol(g[2]), TableSymbol(g[3])]
  {
    var g := GroupSextets(b0, b1, b2);
    EncodedTriple(b0, b1, b2);
    assert Symbols(g) == [Symbol(g[0]), Symbol(g[1]), Symbol(g[2]), Symbol(g[3])];
    AlphabetIsTable();
    assert Symbol(g[0]) == TableSymbol(g[0]) && Symbol(g[1]) == TableSymbol(g[1]);
    assert Symbol(g[2]) == TableSymbol(g[2]) && Symbol(g[3]) == TableSymbol(g[3]);
  }

  /** 2 bytes encode to the Table 1 symbols of their three 6-bit groups, then `=`. */
  lemma PairByTable(b0: byte, b1: byte)
    ensures Encoded([b0, b1]) ==
      [ TableSymbol((b0 >> 2) as sextet),
        TableSymbol((((b0 & 0x03) << 4) | (b1 >> 4)) as sextet),
        TableSymbol(((b1 & 0x0F) << 2) as sextet),
        Pad ]
  {
    EncodedPair(b0, b1);
    AlphabetIsTable();
  }

  /** 1 byte encodes to the Table 1 symbols of its two 6-bit groups, then `==`. */
  lemma SingleByTable(b: byte)
    ensures Encoded([b]) ==
      [TableSymbol((b >> 2) as sextet), TableSymbol(((b & 0x03) << 4) as sextet), Pad, Pad]
  {
    EncodedSingle(b);
    AlphabetIsTable();
  }

  /** "Many hands make light work." encodes to
      "TWFueSBoYW5kcyBtYWtlIGxpZ2h0IHdvcmsu". */
  lemma ManyHands()
    ensures Encoded(
      [0x4D, 0x61, 0x6E] + [0x79, 0x20, 0x68] + [0x61, 0x6E, 0x64] +
      [0x73, 0x20, 0x6D] + [0x61, 0x6B, 0x65] + [0x20, 0x6C, 0x69] +
      [0x67, 0x68, 0x74] + [0x20, 0x77, 0x6F] + [0x72, 0x6B, 0x2E])
    ==
      [0x54, 0x57, 0x46, 0x75] + [0x65, 0x53, 0x42, 0x6F] + [0x59, 0x57, 0x35, 0x6B] +
      [0x63, 0x79, 0x42, 0x74] + [0x59, 0x57, 0x74, 0x6C] + [0x49, 0x47, 0x78, 0x70] +
      [0x5A, 0x32, 0x68, 0x30] + [0x49, 0x48, 0x64, 0x76] + [0x63, 0x6D, 0x73, 0x75]
  {
    var t0, t1, t2: seq<byte> := [0x4D, 0x61, 0x6E], [0x79, 0x20, 0x68], [0x61, 0x6E, 0x64];
    var t3, t4, t5: seq<byte> := [0x73, 0x20, 0x6D], [0x61, 0x6B, 0x65], [0x20, 0x6C, 0x69];
    var t6, t7, t8: seq<byte> := [0x67, 0x68, 0x74], [0x20, 0x77, 0x6F], [0x72, 0x6B, 0x2E];
    TripleByTable(0x4D, 0x61, 0x6E);
    TripleByTable(0x79, 0x20, 0x68);
    TripleByTable(0x61, 0x6E, 0x64);
    TripleByTable(0x73, 0x20, 0x6D);
    TripleByTable(0x61, 0x6B, 0x65);
    TripleByTable(0x20, 0x6C, 0x69);
    TripleByTable(0x67, 0x68, 0x74);
    TripleByTable(0x20, 0x77, 0x6F);
    TripleByTable(0x72, 0x6B, 0x2E);
    EncodedAppend(t0, t1);
    EncodedAppend(t0 + t1, t2);
    EncodedAppend(t0 + t1 + t2, t3);
    EncodedAppend(t0 + t1 + t2 + t3, t4);
    EncodedAppend(t0 + t1 + t2 + t3 + t4, t5);
    EncodedAppend(t0 + t1 + t2 + t3 + t4 + t5, t6);
    EncodedAppend(t0 + t1 + t2 + t3 + t4 + t5 + t6, t7);
    EncodedAppend(t0 + t1 + t2 + t3 + t4 + t5 + t6 + t7, t8);
  }

  /** "light wo" encodes to "bGlnaHQgd28=". */
  lemma LightWo()
    ensures Encoded([0x6C, 0x69, 0x67] + [0x68, 0x74, 0x20] + [0x77, 0x6F])
      == [0x62, 0x47, 0x6C, 0x6E] + [0x61, 0x48, 0x51, 0x67] + [0x64, 0x32, 0x38, 0x3D]
  {
    var t0, t1, t2: seq<byte> := [0x6C, 0x69, 0x67], [0x68, 0x74, 0x20], [0x77, 0x6F];
    TripleByTable(0x6C, 0x69, 0x67);
    TripleByTable(0x68, 0x74, 0x20);
    PairByTable(0x77, 0x6F);
    EncodedAppend(t0, t1);
    EncodedAppend(t0 + t1, t2);
  }

  /** "light w" encodes to "bGlnaHQgdw==". */
  lemma LightW()
    ensures Encoded([0x6C, 0x69, 0x67] + [0x68, 0x74, 0x20] + [0x77])
      == [0x62, 0x47, 0x6C, 0x6E] + [0x61, 0x48, 0x51, 0x67] + [0x64, 0x77, 0x3D, 0x3D]
  {
    var t0, t1, t2: seq<byte> := [0x6C, 0x69, 0x67], [0x68, 0x74, 0x20], [0x77];
    TripleByTable(0x6C, 0x69, 0x67);
    TripleByTable(0x68, 0x74, 0x20);
    SingleByTable(0x77);
    EncodedAppend(t0, t1);
    EncodedAppend(t0 + t1, t2);
  }
}
