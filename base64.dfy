/** Padded standard Base64 encoding (section 4 of RFC 4648), as computed by
    `base64_encode` in src/lib.rs.

    Bytes are `bv8` (Rust `u8`) and the packing buffers are `bv32` (Rust `u32`),
    so the shifts and masks of the source are modelled bit for bit: a `u8` shift
    drops the bits pushed out of the byte, exactly as `bv8` does.

    `Encoded` is the reference definition, in the three steps of the RFC: the
    input bits are cut into 6-bit groups, most significant first, a final group
    of 1 or 2 bytes being completed with zero bits (`Sextets`); each 6-bit value
    is replaced by its symbol in the alphabet (`Symbols`); and `=` is appended
    once or twice when the input ends with 2 or 1 bytes (`Padding`).
    `Encode` is the source's loop over `chunks_exact(3)` followed by its two
    remainder branches, and is proved to compute `Encoded`. */
module Base64 {

  /** A Rust `u8`. */
  type byte = bv8

  /** A 6-bit value: an index into the alphabet. */
  type sextet = bv6

  /** The source's `ALPHABET`: the 64 symbols, indexed by their 6-bit value,
      as the ASCII codes of its four runs `A-Z`, `a-z`, `0-9` and `+/`. */
  const Alphabet: seq<byte> :=
    [0x41, 0x42, 0x43, 0x44, 0x45, 0x46, 0x47, 0x48, 0x49, 0x4A, 0x4B, 0x4C, 0x4D,
     0x4E, 0x4F, 0x50, 0x51, 0x52, 0x53, 0x54, 0x55, 0x56, 0x57, 0x58, 0x59, 0x5A] +
    [0x61, 0x62, 0x63, 0x64, 0x65, 0x66, 0x67, 0x68, 0x69, 0x6A, 0x6B, 0x6C, 0x6D,
     0x6E, 0x6F, 0x70, 0x71, 0x72, 0x73, 0x74, 0x75, 0x76, 0x77, 0x78, 0x79, 0x7A] +
    [0x30, 0x31, 0x32, 0x33, 0x34, 0x35, 0x36, 0x37, 0x38, 0x39] +
    [0x2B, 0x2F]

  /** The padding symbol `=` (ASCII 0x3D), the source's `b'='`. */
  const Pad: byte := 0x3D

  /** `ALPHABET[v as usize]`: the index is in bounds because it is below 64.
      Which symbol that is, `AlphabetIsTable` states. */
  function Symbol(v: sextet): byte
  {
    Alphabet[v as int]
  }

  /** The 6-bit value `x & 0b111111`: the remainder of `x` divided by 64. */
  function Field(x: bv32): (v: sextet)
    ensures v as bv32 == x % 64
  {
    (x & 0x3F) as sextet
  }

  /** `ALPHABET[(x & 0b111111) as usize]`: the symbol Table 1 of RFC 4648 gives
      to `x` modulo 64, never `=`; the mask keeps the index below 64. */
  function Lookup(x: bv32): (r: byte)
    ensures r == TableSymbol(Field(x)) && r != Pad
  {
    AlphabetIsTable();
    TableInjective(Field(x), Field(x));
    Symbol(Field(x))
  }

  /** Table 1 of RFC 4648: the symbol of value `v`, in ASCII codes: 0x41 is
      `A`, 0x61 is `a`, 0x30 is `0`, 0x2B is `+` and 0x2F is `/`. */
  function TableSymbol(v: sextet): byte
  {
    if v < 26 then 0x41 + v as byte
    else if v < 52 then 0x61 + (v - 26) as byte
    else if v < 62 then 0x30 + (v - 52) as byte
    else if v == 62 then 0x2B
    else 0x2F
  }

  /** Table 1 gives distinct symbols to distinct values, none of them `=`. */
  lemma TableInjective(v: sextet, w: sextet)
    ensures v != w ==> TableSymbol(v) != TableSymbol(w)
    ensures TableSymbol(v) != Pad
  {
  }

  /** `ALPHABET` holds 64 symbols and is Table 1 of RFC 4648. */
  lemma AlphabetIsTable()
    ensures |Alphabet| == 64
    ensures forall v: sextet :: Alphabet[v as int] == TableSymbol(v)
  {
  }

  /** The 64 symbols are distinct, and `=` is not one of them. */
  lemma AlphabetDistinct()
    ensures forall v: sextet, w: sextet :: v != w ==> Symbol(v) != Symbol(w)
    ensures Pad !in Alphabet
  {
    AlphabetIsTable();
    forall v: sextet, w: sextet
      ensures v != w ==> Symbol(v) != Symbol(w)
    {
      TableInjective(v, w);
    }
    forall i | 0 <= i < |Alphabet|
      ensures Alphabet[i] != Pad
    {
      var v := i as sextet;
      assert v as int == i;
      TableInjective(v, v);
    }
  }

  /** A byte the encoder may emit: an alphabet symbol or the padding. */
  predicate IsOutputSymbol(c: byte)
  {
    c in Alphabet || c == Pad
  }

  /** `u32::from_be_bytes`: `b[0]` is the most significant byte, and each byte
      is found again at its place in the word. */
  function FromBeBytes(b: seq<byte>): (w: bv32)
    requires |b| == 4
    ensures (w >> 24) as byte == b[0] && ((w >> 16) & 0xFF) as byte == b[1]
    ensures ((w >> 8) & 0xFF) as byte == b[2] && (w & 0xFF) as byte == b[3]
  {
    (b[0] as bv32 << 24) | (b[1] as bv32 << 16) | (b[2] as bv32 << 8) | b[3] as bv32
  }

  /** The four 6-bit groups of the 24 bits `b0 b1 b2`, most significant first. */
  function GroupSextets(b0: byte, b1: byte, b2: byte): seq<sextet>
  {
    [ (b0 >> 2) as sextet,
      (((b0 & 0x03) << 4) | (b1 >> 4)) as sextet,
      (((b1 & 0x0F) << 2) | (b2 >> 6)) as sextet,
      (b2 & 0x3F) as sextet ]
  }

  /** The 6-bit groups of `val`: four per 3 bytes; a last group of 1 or 2 bytes
      is completed with zero bits to 2 or 3 whole 6-bit groups. */
  function Sextets(val: seq<byte>): seq<sextet>
  {
    if |val| >= 3 then GroupSextets(val[0], val[1], val[2]) + Sextets(val[3..])
    else if |val| == 2 then GroupSextets(val[0], val[1], 0)[..3]
    else if |val| == 1 then GroupSextets(val[0], 0, 0)[..2]
    else []
  }

  /** The alphabet symbols of a sequence of 6-bit values. */
  function Symbols(s: seq<sextet>): seq<byte>
  {
    seq(|s|, i requires 0 <= i < |s| => Symbol(s[i]))
  }

  /** The padding that completes the last 4-symbol group of an input of `n` bytes. */
  function Padding(n: nat): seq<byte>
  {
    if n % 3 == 1 then [Pad, Pad]
    else if n % 3 == 2 then [Pad]
    else []
  }

  /** The padded Base64 encoding of `val`. */
  function Encoded(val: seq<byte>): seq<byte>
  {
    Symbols(Sextets(val)) + Padding(|val|)
  }

  /** The 6-bit groups of a concatenation whose first part is whole 3-byte
      groups are those of the parts. */
  lemma {:induction false} SextetsAppend(a: seq<byte>, b: seq<byte>)
    requires |a| % 3 == 0
    ensures Sextets(a + b) == Sextets(a) + Sextets(b)
    decreases |a|
  {
    if a == [] {
      assert a + b == b;
    } else {
      var g := GroupSextets(a[0], a[1], a[2]);
      assert (a + b)[3..] == a[3..] + b;
      assert Sextets(a + b) == g + Sextets(a[3..] + b);
      SextetsAppend(a[3..], b);
      assert g + (Sextets(a[3..]) + Sextets(b)) == (g + Sextets(a[3..])) + Sextets(b);
    }
  }

  /** `Symbols` maps each value on its own, so it distributes over concatenation. */
  lemma SymbolsAppend(s: seq<sextet>, t: seq<sextet>)
    ensures Symbols(s + t) == Symbols(s) + Symbols(t)
  {
  }

  /** The fields the source takes from `from_be_bytes([0, b0, b1, b2])` are the
      four 6-bit groups of `b0 b1 b2`. */
  lemma PackedGroup(b0: byte, b1: byte, b2: byte)
    ensures var buf := FromBeBytes([0, b0, b1, b2]);
      [Field(buf >> 18), Field(buf >> 12), Field(buf >> 6), Field(buf)]
      == GroupSextets(b0, b1, b2)
  {
  }

  /** The fields the source takes from one remaining byte `b` are the two 6-bit
      groups of `b` completed with zero bits; `b << 4` is a `u8` shift, which
      drops the high bits. */
  lemma RemainderOneFields(b: byte)
    ensures [Field((b >> 2) as bv32), Field((b << 4) as bv32)] == Sextets([b])
  {
  }

  /** The fields the source takes from `from_be_bytes([0, 0, b0, b1])` are the
      three 6-bit groups of `b0 b1` completed with zero bits. */
  lemma RemainderTwoFields(b0: byte, b1: byte)
    ensures var buf := FromBeBytes([0, 0, b0, b1]);
      [Field(buf >> 10), Field(buf >> 4), Field(buf << 2)] == Sextets([b0, b1])
  {
  }

  /** What the source emits for a full chunk `b0 b1 b2` is its encoding. */
  lemma PackedChunk(b0: byte, b1: byte, b2: byte)
    ensures var buf := FromBeBytes([0, b0, b1, b2]);
      [Lookup(buf >> 18), Lookup(buf >> 12), Lookup(buf >> 6), Lookup(buf)]
      == Encoded([b0, b1, b2])
  {
    var g := GroupSextets(b0, b1, b2);
    PackedGroup(b0, b1, b2);
    assert [b0, b1, b2][3..] == [];
    assert Sextets([b0, b1, b2]) == g + [];
    assert Symbols(g) == [Symbol(g[0]), Symbol(g[1]), Symbol(g[2]), Symbol(g[3])];
  }

  /** What the source emits for a single remaining byte `b` is its encoding. */
  lemma RemainderOne(b: byte)
    ensures [Lookup((b >> 2) as bv32), Lookup((b << 4) as bv32), Pad, Pad] == Encoded([b])
  {
    RemainderOneFields(b);
  }

  /** What the source emits for two remaining bytes `b0 b1` is their encoding. */
  lemma RemainderTwo(b0: byte, b1: byte)
    ensures var buf := FromBeBytes([0, 0, b0, b1]);
      [Lookup(buf >> 10), Lookup(buf >> 4), Lookup(buf << 2), Pad] == Encoded([b0, b1])
  {
    RemainderTwoFields(b0, b1);
  }

  /** The four symbols the source appends for a full chunk `b0 b1 b2`, taken
      from `from_be_bytes([0, b0, b1, b2])`: they are the chunk's encoding. */
  function ChunkSymbols(b0: byte, b1: byte, b2: byte): (r: seq<byte>)
    ensures r == Encoded([b0, b1, b2])
  {
    var buf := FromBeBytes([0, b0, b1, b2]);
    PackedChunk(b0, b1, b2);
    [Lookup(buf >> 18), Lookup(buf >> 12), Lookup(buf >> 6), Lookup(buf)]
  }

  /** The symbols the source appends for a single remaining byte `b`: they are
      its encoding. The shifts are `u8` shifts, widened only to be masked. */
  function SingleSymbols(b: byte): (r: seq<byte>)
    ensures r == Encoded([b])
  {
    RemainderOne(b);
    [Lookup((b >> 2) as bv32), Lookup((b << 4) as bv32), Pad, Pad]
  }

  /** The symbols the source appends for two remaining bytes `b0 b1`, taken
      from `from_be_bytes([0, 0, b0, b1])`: they are their encoding. */
  function PairSymbols(b0: byte, b1: byte): (r: seq<byte>)
    ensures r == Encoded([b0, b1])
  {
    var buf := FromBeBytes([0, 0, b0, b1]);
    RemainderTwo(b0, b1);
    [Lookup(buf >> 10), Lookup(buf >> 4), Lookup(buf << 2), Pad]
  }

  /** Whole 3-byte groups in front of an input do not change its padding. */
  lemma PaddingAfterGroups(m: nat, n: nat)
    requires m % 3 == 0
    ensures Padding(m) == [] && Padding(m + n) == Padding(n)
  {
    assert m == 3 * (m / 3);
    assert (m + n) % 3 == n % 3;
  }

  /** Encoding a concatenation whose first part is whole 3-byte groups encodes
      the parts one after the other. */
  lemma EncodedAppend(a: seq<byte>, b: seq<byte>)
    requires |a| % 3 == 0
    ensures Encoded(a + b) == Encoded(a) + Encoded(b)
  {
    var sa, sb := Symbols(Sextets(a)), Symbols(Sextets(b));
    calc {
      Encoded(a + b);
    ==
      Symbols(Sextets(a + b)) + Padding(|a + b|);
    == { SextetsAppend(a, b); PaddingAfterGroups(|a|, |b|); }
      Symbols(Sextets(a) + Sextets(b)) + Padding(|b|);
    == { SymbolsAppend(Sextets(a), Sextets(b)); }
      (sa + sb) + Padding(|b|);
    ==
      sa + (sb + Padding(|b|));
    == { assert sa + [] == sa; }
      (sa + Padding(|a|)) + Encoded(b);
    }
  }

  /** One iteration of the source's loop: the encoding of the first `c + 1`
      chunks is that of the first `c` chunks followed by that of chunk `c`. */
  lemma ChunkStep(val: seq<byte>, c: nat)
    requires 3 * c + 3 <= |val|
    ensures Encoded(val[..3 * c + 3])
      == Encoded(val[..3 * c]) + Encoded([val[3 * c], val[3 * c + 1], val[3 * c + 2]])
  {
    assert val[..3 * c + 3] == val[..3 * c] + [val[3 * c], val[3 * c + 1], val[3 * c + 2]];
    EncodedAppend(val[..3 * c], [val[3 * c], val[3 * c + 1], val[3 * c + 2]]);
  }

  /** The encoding of `val` is that of its first `c` chunks followed by that
      of the bytes after them. */
  lemma RemainderSplit(val: seq<byte>, c: nat)
    requires 3 * c <= |val|
    ensures Encoded(val) == Encoded(val[..3 * c]) + Encoded(val[3 * c..])
  {
    var k := 3 * c;
    assert val == val[..k] + val[k..];
    EncodedAppend(val[..k], val[k..]);
  }

  /** The source's encoder: 4 symbols per full 3-byte chunk of
      `chunks_exact(3)`, then the remainder of 1 or 2 bytes with its padding.
      The chunk starting at `i` is `val[i..i + 3]` and the remainder is
      `val[i..]` once the loop ends, so `s[k]` and `rem[k]` are `val[i + k]`. */
  method Encode(val: seq<byte>) returns (out: seq<byte>)
    ensures out == Encoded(val)
  {
    out := [];
    var i := 0;
    ghost var c := 0;
    while i + 3 <= |val|
      invariant i == 3 * c <= |val|
      invariant out == Encoded(val[..i])
    {
      ChunkStep(val, c);
      out := out + ChunkSymbols(val[i], val[i + 1], val[i + 2]);
      i, c := i + 3, c + 1;
    }
    RemainderSplit(val, c);
    var rl := |val| - i;
    if rl == 1 {
      assert val[i..] == [val[i]];
      out := out + SingleSymbols(val[i]);
    } else if rl == 2 {
      assert val[i..] == [val[i], val[i + 1]];
      out := out + PairSymbols(val[i], val[i + 1]);
    } else {
      assert val[i..] == [];
    }
  }
}
