/** Properties of the padded Base64 encoding defined in module `Base64`:
    the output length, the symbols it may contain, where `=` may occur, what
    each 4-symbol group holds, and that the encoding loses nothing. */
module Base64Properties {
  import opened Base64

  /** The number of `=` that end the encoding of an input of `n` bytes. */
  function PadCount(n: nat): (k: nat)
    ensures k == |Padding(n)|
    ensures k < 3 && (k == 0 <==> n % 3 == 0)
  {
    if n % 3 == 0 then 0 else 3 - n % 3
  }

  /** Dropping 3 bytes removes one group and keeps the length modulo 3. */
  lemma GroupCountStep(n: nat)
    requires n >= 3
    ensures (n + 2) / 3 == (n - 1) / 3 + 1 && PadCount(n) == PadCount(n - 3)
  {
    assert (n - 3) % 3 == n % 3;
  }

  /** The 6-bit groups and the padding of `val` fill `ceil(|val| / 3)`
      4-symbol groups. */
  lemma {:induction false} GroupedLength(val: seq<byte>)
    ensures |Sextets(val)| + PadCount(|val|) == 4 * ((|val| + 2) / 3)
    decreases |val|
  {
    if |val| >= 3 {
      GroupedLength(val[3..]);
      GroupCountStep(|val|);
    }
  }

  /** Every 3 input bytes, and a final 1 or 2, give 4 output symbols:
      the output has `4 * ceil(n / 3)` bytes. */
  lemma EncodedLength(val: seq<byte>)
    ensures |Encoded(val)| == 4 * ((|val| + 2) / 3)
  {
    GroupedLength(val);
  }

  /** `j` whole 3-byte groups encode to `4 * j` symbols. */
  lemma WholeGroupsLength(p: seq<byte>, j: nat)
    requires |p| == 3 * j
    ensures |Encoded(p)| == 4 * j
  {
    EncodedLength(p);
    assert (3 * j + 2) / 3 == j;
  }

  /** The encoding is empty exactly when the input is. */
  lemma EncodedEmpty(val: seq<byte>)
    ensures Encoded(val) == [] <==> val == []
  {
    EncodedLength(val);
  }

  /** Every output byte is one of the 64 alphabet symbols or `=`. */
  lemma EncodedSymbols(val: seq<byte>)
    ensures forall k :: 0 <= k < |Encoded(val)| ==> IsOutputSymbol(Encoded(val)[k])
  {
    var e, s := Encoded(val), Symbols(Sextets(val));
    forall k | 0 <= k < |e|
      ensures IsOutputSymbol(e[k])
    {
      if k < |s| {
        assert e[k] == Alphabet[Sextets(val)[k] as int];
      } else {
        assert e[k] == Padding(|val|)[k - |s|];
      }
    }
  }

  /** `=` occurs only as the last `PadCount(|val|)` symbols, and all of those
      are `=`: none when the input length is a multiple of 3, two when it
      leaves 1 byte, one when it leaves 2. */
  lemma EncodedPadding(val: seq<byte>)
    ensures forall k :: 0 <= k < |Encoded(val)| ==>
      (Encoded(val)[k] == Pad <==> |Encoded(val)| - PadCount(|val|) <= k)
  {
    var e, s := Encoded(val), Symbols(Sextets(val));
    AlphabetDistinct();
    forall k | 0 <= k < |e|
      ensures e[k] == Pad <==> |e| - PadCount(|val|) <= k
    {
      if k < |s| {
        assert e[k] == Alphabet[Sextets(val)[k] as int];
      } else {
        assert e[k] == Padding(|val|)[k - |s|];
      }
    }
  }

  /** The encoding ends in `==` exactly when the input leaves 1 byte after
      its whole groups, in a single `=` exactly when it leaves 2, and holds no
      `=` exactly when it leaves none. */
  lemma PaddingLaw(val: seq<byte>)
    ensures var e := Encoded(val);
      (|val| % 3 == 1 <==> |e| >= 2 && e[|e| - 2] == Pad && e[|e| - 1] == Pad) &&
      (|val| % 3 == 2 <==> |e| >= 2 && e[|e| - 2] != Pad && e[|e| - 1] == Pad) &&
      (|val| % 3 == 0 <==> Pad !in e)
  {
    var e := Encoded(val);
    EncodedPadding(val);
    EncodedLength(val);
    if |val| % 3 != 0 {
      assert |e| >= 4;
      assert e[|e| - 1] == Pad;
    }
  }

  /** Three bytes encode to the symbols of their four 6-bit groups. */
  lemma EncodedTriple(b0: byte, b1: byte, b2: byte)
    ensures Encoded([b0, b1, b2]) == Symbols(GroupSextets(b0, b1, b2))
  {
    assert [b0, b1, b2][3..] == [];
    assert Sextets([b0, b1, b2]) == GroupSextets(b0, b1, b2) + [];
  }

  /** Group `j` of the output is the symbols of the 6-bit groups of input
      bytes `3j`, `3j+1`, `3j+2`. */
  lemma EncodedGroupSlice(val: seq<byte>, j: nat)
    requires 3 * j + 3 <= |val|
    ensures 4 * j + 4 <= |Encoded(val)|
    ensures Encoded(val)[4 * j..4 * j + 4]
      == Symbols(GroupSextets(val[3 * j], val[3 * j + 1], val[3 * j + 2]))
  {
    var p, b, r := val[..3 * j], val[3 * j..3 * j + 3], val[3 * j + 3..];
    assert val == p + (b + r);
    assert b == [val[3 * j], val[3 * j + 1], val[3 * j + 2]];
    EncodedAppend(b, r);
    assert |p| % 3 == 0 by { assert |p| == 3 * j; }
    EncodedAppend(p, b + r);
    EncodedTriple(val[3 * j], val[3 * j + 1], val[3 * j + 2]);
    WholeGroupsLength(p, j);
    assert (Encoded(p) + (Encoded(b) + Encoded(r)))[4 * j..4 * j + 4] == Encoded(b);
  }

  /** Group `j` of the output holds the four 6-bit fields of input bytes
      `3j`, `3j+1`, `3j+2`: the top 6 bits of the first byte; its low 2 bits
      with the top 4 of the second; the low 4 bits of the second with the top
      2 of the third; the low 6 bits of the third. */
  lemma EncodedGroupAt(val: seq<byte>, j: nat)
    requires 3 * j + 3 <= |val|
    ensures var b0, b1, b2 := val[3 * j], val[3 * j + 1], val[3 * j + 2];
      4 * j + 4 <= |Encoded(val)| &&
      Encoded(val)[4 * j..4 * j + 4] ==
        [ Symbol((b0 >> 2) as sextet),
          Symbol((((b0 & 0x03) << 4) | (b1 >> 4)) as sextet),
          Symbol((((b1 & 0x0F) << 2) | (b2 >> 6)) as sextet),
          Symbol((b2 & 0x3F) as sextet) ]
  {
    EncodedGroupSlice(val, j);
  }

  /** A single byte is encoded as its top 6 bits, then its low 2 bits followed
      by four zero bits, then two `=`. */
  lemma EncodedSingle(b: byte)
    ensures Encoded([b]) == [Symbol((b >> 2) as sextet), Symbol(((b & 0x03) << 4) as sextet), Pad, Pad]
  {
  }

  /** Two bytes are encoded as the three 6-bit groups of their 16 bits followed
      by two zero bits, then one `=`. */
  lemma EncodedPair(b0: byte, b1: byte)
    ensures Encoded([b0, b1]) ==
      [ Symbol((b0 >> 2) as sextet),
        Symbol((((b0 & 0x03) << 4) | (b1 >> 4)) as sextet),
        Symbol(((b1 & 0x0F) << 2) as sextet),
        Pad ]
  {
  }

  /** An input that leaves 1 byte after its whole groups ends with that byte's
      two symbols and `==`. */
  lemma EncodedTailOne(val: seq<byte>)
    requires |val| % 3 == 1
    ensures var e, b := Encoded(val), val[|val| - 1];
      |e| >= 4 &&
      e[|e| - 4..] == [Symbol((b >> 2) as sextet), Symbol(((b & 0x03) << 4) as sextet), Pad, Pad]
  {
    var c := |val| / 3;
    assert |val| == 3 * c + |val| % 3;
    RemainderSplit(val, c);
    assert val[3 * c..] == [val[|val| - 1]];
    EncodedSingle(val[|val| - 1]);
    assert Encoded(val)[|Encoded(val)| - 4..] == Encoded(val[3 * c..]);
  }

  /** An input that leaves 2 bytes after its whole groups ends with their
      three symbols and `=`. */
  lemma EncodedTailTwo(val: seq<byte>)
    requires |val| % 3 == 2
    ensures var e, b0, b1 := Encoded(val), val[|val| - 2], val[|val| - 1];
      |e| >= 4 &&
      e[|e| - 4..] ==
        [ Symbol((b0 >> 2) as sextet),
          Symbol((((b0 & 0x03) << 4) | (b1 >> 4)) as sextet),
          Symbol(((b1 & 0x0F) << 2) as sextet),
          Pad ]
  {
    var c := |val| / 3;
    assert |val| == 3 * c + |val| % 3;
    RemainderSplit(val, c);
    assert val[3 * c..] == [val[|val| - 2], val[|val| - 1]];
    EncodedPair(val[|val| - 2], val[|val| - 1]);
    assert Encoded(val)[|Encoded(val)| - 4..] == Encoded(val[3 * c..]);
  }
}
