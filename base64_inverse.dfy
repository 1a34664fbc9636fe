/** The encoding loses nothing: a left inverse `Recovered` gives back the
    input from its encoding, so distinct inputs have distinct encodings.
    `Recovered` reads each step of `Encoded` backwards (strip the `=`, map each
    symbol to its 6-bit value, regroup the bits into bytes) and exists only to
    state this; it is not the repository's `base64_decode`, and it gives no
    meaning to text that is not an encoding. */
module Base64Inverse {
  import opened Base64
  import opened Base64Properties

  /** Table 1 of RFC 4648 read backwards: the value of a symbol. The ranges
      are `A`-`Z` (0x41-0x5A), `a`-`z` (0x61-0x7A) and `0`-`9` (0x30-0x39);
      `+` (0x2B) is 62 and every other byte is read as `/`, 63. */
  function SymbolValue(c: byte): sextet
  {
    if 0x41 <= c <= 0x5A then (c - 0x41) as sextet
    else if 0x61 <= c <= 0x7A then (c - 0x61 + 26) as sextet
    else if 0x30 <= c <= 0x39 then (c - 0x30 + 52) as sextet
    else if c == 0x2B then 62
    else 63
  }

  /** Every symbol of the table reads back as its value. */
  lemma TableValue(v: sextet)
    ensures SymbolValue(TableSymbol(v)) == v
  {
  }

  /** Every alphabet symbol reads back as its index. */
  lemma SymbolRoundTrip(v: sextet)
    ensures SymbolValue(Symbol(v)) == v
  {
    AlphabetIsTable();
    TableValue(v);
  }

  /** The 3 bytes whose 24 bits are the 6-bit groups `s0 s1 s2 s3`. */
  function GroupBytes(s0: sextet, s1: sextet, s2: sextet, s3: sextet): seq<byte>
  {
    [ ((s0 as byte) << 2) | ((s1 as byte) >> 4),
      ((s1 as byte) << 4) | ((s2 as byte) >> 2),
      ((s2 as byte) << 6) | (s3 as byte) ]
  }

  /** The bytes of a sequence of 6-bit groups: 3 per 4 groups; a final 3 or
      2 groups give 2 or 1 bytes, their extra low bits being dropped. */
  function Unsextets(g: seq<sextet>): seq<byte>
    decreases |g|
  {
    if |g| >= 4 then GroupBytes(g[0], g[1], g[2], g[3]) + Unsextets(g[4..])
    else if |g| == 3 then GroupBytes(g[0], g[1], g[2], 0)[..2]
    else if |g| == 2 then GroupBytes(g[0], g[1], 0, 0)[..1]
    else []
  }

  /** The values of a sequence of symbols. */
  function Values(e: seq<byte>): seq<sextet>
  {
    seq(|e|, i requires 0 <= i < |e| => SymbolValue(e[i]))
  }

  /** `e` without the one or two `=` that end it. */
  function Unpadded(e: seq<byte>): seq<byte>
  {
    if |e| >= 2 && e[|e| - 2] == Pad then e[..|e| - 2]
    else if |e| >= 1 && e[|e| - 1] == Pad then e[..|e| - 1]
    else e
  }

  /** The bytes whose encoding is `e`, when `e` is an encoding. */
  function Recovered(e: seq<byte>): seq<byte>
  {
    Unsextets(Values(Unpadded(e)))
  }

  /** Regrouping the four 6-bit groups of 3 bytes gives the bytes back. */
  lemma TripleRoundTrip(b0: byte, b1: byte, b2: byte)
    ensures var g := GroupSextets(b0, b1, b2);
      GroupBytes(g[0], g[1], g[2], g[3]) == [b0, b1, b2]
  {
  }

  /** Regrouping the groups of 2 bytes gives them back. */
  lemma PairRoundTrip(b0: byte, b1: byte)
    ensures var g := GroupSextets(b0, b1, 0);
      GroupBytes(g[0], g[1], g[2], 0)[..2] == [b0, b1]
  {
  }

  /** Regrouping the groups of 1 byte gives it back. */
  lemma SingleRoundTrip(b: byte)
    ensures var g := GroupSextets(b, 0, 0);
      GroupBytes(g[0], g[1], 0, 0)[..1] == [b]
  {
  }

  /** Regrouping the 6-bit groups of `val` gives `val` back. */
  lemma {:induction false} SextetsRoundTrip(val: seq<byte>)
    ensures Unsextets(Sextets(val)) == val
    decreases |val|
  {
    if |val| >= 3 {
      var g, t := GroupSextets(val[0], val[1], val[2]), Sextets(val[3..]);
      assert (g + t)[4..] == t;
      SextetsRoundTrip(val[3..]);
      TripleRoundTrip(val[0], val[1], val[2]);
      assert val == [val[0], val[1], val[2]] + val[3..];
    } else if |val| == 2 {
      PairRoundTrip(val[0], val[1]);
    } else if |val| == 1 {
      SingleRoundTrip(val[0]);
    }
  }

  /** Reading back the symbols of a sequence of 6-bit values gives the values. */
  lemma ValuesRoundTrip(s: seq<sextet>)
    ensures Values(Symbols(s)) == s
  {
    forall k | 0 <= k < |s|
      ensures Values(Symbols(s))[k] == s[k]
    {
      SymbolRoundTrip(s[k]);
    }
  }

  /** Stripping the `=` of an encoding leaves its symbols. */
  lemma UnpaddedEncoded(val: seq<byte>)
    ensures Unpadded(Encoded(val)) == Symbols(Sextets(val))
  {
    var s := Symbols(Sextets(val));
    var e := Encoded(val);
    AlphabetDistinct();
    GroupedLength(val);
    assert forall k :: 0 <= k < |s| ==> s[k] != Pad by {
      forall k | 0 <= k < |s|
        ensures s[k] != Pad
      {
        assert s[k] == Alphabet[Sextets(val)[k] as int];
      }
    }
    if |val| % 3 == 1 {
      assert e == s + [Pad, Pad];
      assert e[..|e| - 2] == s;
    } else if |val| % 3 == 2 {
      assert e == s + [Pad];
      assert e[|e| - 2] == s[|s| - 1];
      assert e[..|e| - 1] == s;
    } else {
      assert e == s;
    }
  }

  /** The input is recovered from its encoding. */
  lemma RoundTrip(val: seq<byte>)
    ensures Recovered(Encoded(val)) == val
  {
    UnpaddedEncoded(val);
    ValuesRoundTrip(Sextets(val));
    SextetsRoundTrip(val);
  }

  /** Distinct inputs have distinct encodings. */
  lemma EncodedInjective(a: seq<byte>, b: seq<byte>)
    ensures Encoded(a) == Encoded(b) ==> a == b
  {
    RoundTrip(a);
    RoundTrip(b);
  }
}
