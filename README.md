# Padded Base64 encoder (base64_rs)

A Dafny model of `base64_encode` and its `ALPHABET` table from the Rust crate
`base64_rs` (src/lib.rs). The encoder produces standard padded Base64 as in
section 4 of RFC 4648. Each full 3-byte chunk of the input is packed
big-endian into a `u32`. Four 6-bit fields of that word are looked up in
`ALPHABET`. A final 1 or 2 bytes give 2 or 3 symbols, followed by `==` or `=`.

The model has four modules.

- `Base64` (base64.dfy) holds the data model and the encoder.
  - Bytes are `bv8`, the packing words are `bv32` and alphabet indices are
    `bv6`. The source's shifts and masks are therefore modelled bit for bit,
    including the `u8` shift `rem[0] << 4`, which drops the byte's high bits.
  - `Encoded` is a reference definition in the RFC's own three steps: cut the
    bits into 6-bit groups, map each group through the alphabet, append the
    padding.
  - `Encode` is the source's function as a method. It runs a loop over the
    3-byte chunks that appends four symbols per chunk to a growing sequence,
    then takes the two remainder branches. It is proved to return
    `Encoded(val)` for every input.
- `Base64Properties` (base64_properties.dfy) proves the encoding's laws:
  - the output length;
  - the symbols that may occur;
  - where `=` may occur;
  - the content of each 4-symbol group and of the final group;
  - that the empty input is the only one with an empty encoding.
- `Base64Inverse` (base64_inverse.dfy) proves that the encoding loses
  nothing. The left inverse `Recovered` gives the input back from its
  encoding, so encoding is injective.
- `Base64Vectors` (base64_vectors.dfy) proves the crate's three test vectors.

## Model

| member | source | states |
|---|---|---|
| `Base64.AlphabetIsTable` | src/lib.rs:1 | `ALPHABET` has 64 entries, and entry `v` is the symbol Table 1 of RFC 4648 gives to value `v` |
| `Base64.AlphabetDistinct` | src/lib.rs:1 | the 64 symbols are pairwise distinct and `=` is not among them, so a symbol determines its index |
| `Base64.Field` | src/lib.rs:11-14 | the mask `x & 0b111111` is the remainder of `x` divided by 64, a value below 64 |
| `Base64.Lookup` | src/lib.rs:11-14 | `ALPHABET[(x & 0b111111) as usize]` is the Table 1 symbol of `x` modulo 64, never `=`; the remainder lookups at src/lib.rs:20-21 and 29-31 use it too |
| `Base64.FromBeBytes` | src/lib.rs:8 | `u32::from_be_bytes`: each of the 4 bytes is found again at its place in the word, most significant first |
| `Base64.PackedGroup` | src/lib.rs:8-14 | the fields `buf>>18`, `>>12`, `>>6` and `buf`, each masked to 6 bits, are the four 6-bit groups of the chunk's 24 bits, most significant first |
| `Base64.RemainderOneFields` | src/lib.rs:20-21 | for one remaining byte, `rem[0]>>2` and the `u8` shift `rem[0]<<4`, masked, are the byte's two 6-bit groups completed with zero bits |
| `Base64.RemainderTwoFields` | src/lib.rs:26-31 | for two remaining bytes packed as `[0,0,r0,r1]`, the masked fields `>>10`, `>>4` and `<<2` are the three 6-bit groups of the 16 bits completed with two zero bits |
| `Base64.ChunkSymbols` | src/lib.rs:8-15 | the four symbols the loop body appends for a chunk are exactly that chunk's encoding |
| `Base64.SingleSymbols` | src/lib.rs:18-24 | what the one-byte branch appends (two symbols, `=`, `=`) is exactly that byte's encoding |
| `Base64.PairSymbols` | src/lib.rs:25-33 | what the two-byte branch appends (three symbols, `=`) is exactly those bytes' encoding |
| `Base64.RemainderSplit` | src/lib.rs:5-6 | splitting the input into its first `c` chunks and the rest splits the encoding the same way |
| `Base64.ChunkStep` | src/lib.rs:7-16 | each loop iteration extends the encoding of the bytes processed so far by the encoding of the next chunk |
| `Base64.EncodedAppend` | src/lib.rs:5-16 | when `a` is whole 3-byte groups, the encoding of `a + b` is the encoding of `a` followed by the encoding of `b` |
| `Base64.Encode` | src/lib.rs:3-36 | the encoder returns `Encoded(val)` for every input; every alphabet index it computes is a 6-bit value, so every lookup is in bounds |
| `Base64Properties.PadCount` | src/lib.rs:17-34 | the number of `=` is below 3 and is zero exactly when the length is a multiple of 3 |
| `Base64Properties.EncodedLength` | src/lib.rs:3-36 | the output has exactly `4 * ceil(n / 3)` bytes for an input of `n` bytes |
| `Base64Properties.EncodedEmpty` | src/lib.rs:35 | the encoding is empty if and only if the input is empty |
| `Base64Properties.EncodedSymbols` | src/lib.rs:10-33 | every output byte is an `ALPHABET` symbol or `=` |
| `Base64Properties.EncodedPadding` | src/lib.rs:17-34 | an output position holds `=` if and only if it is one of the last `PadCount(n)` positions |
| `Base64Properties.PaddingLaw` | src/lib.rs:17-34 | the output ends in `==` iff `n % 3 == 1`, ends in a single `=` iff `n % 3 == 2`, and holds no `=` iff `n % 3 == 0` |
| `Base64Properties.EncodedGroupAt` | src/lib.rs:7-15 | output group `j` is `A[b0>>2]`, `A[((b0&3)<<4) or (b1>>4)]`, `A[((b1&15)<<2) or (b2>>6)]`, `A[b2&63]` for input bytes `3j..3j+2` |
| `Base64Properties.EncodedTailOne` | src/lib.rs:18-24 | when `n % 3 == 1`, the output ends with `A[b>>2]`, `A[(b&3)<<4]`, `=`, `=` for the last byte `b` |
| `Base64Properties.EncodedTailTwo` | src/lib.rs:25-33 | when `n % 3 == 2`, the output ends with the three 6-bit groups of the last two bytes' 16 bits followed by two zero bits, then `=` |
| `Base64Inverse.SymbolRoundTrip` | src/lib.rs:1 | reading an `ALPHABET` symbol back through RFC 4648's Table 1 gives its index |
| `Base64Inverse.SextetsRoundTrip` | src/lib.rs:8-33 | regrouping the 6-bit fields of the input into bytes gives the input back, so the field extraction loses no bit |
| `Base64Inverse.UnpaddedEncoded` | src/lib.rs:17-34 | removing the trailing `=` from an encoding leaves exactly its data symbols |
| `Base64Inverse.RoundTrip` | src/lib.rs:3-36 | the input is recovered from its encoding |
| `Base64Inverse.EncodedInjective` | src/lib.rs:3-36 | distinct inputs have distinct encodings |
| `Base64Vectors.ManyHands` | src/lib.rs:80 | "Many hands make light work." encodes to "TWFueSBoYW5kcyBtYWtlIGxpZ2h0IHdvcmsu" |
| `Base64Vectors.LightWo` | src/lib.rs:84 | "light wo" encodes to "bGlnaHQgd28=" |
| `Base64Vectors.LightW` | src/lib.rs:88 | "light w" encodes to "bGlnaHQgdw==" |

`Base64.Symbol` is the bare read `ALPHABET[v]` for an in-range `v`; its
content is stated by `Base64.AlphabetIsTable`. In the table, `A[i]` is
`ALPHABET[i]`, `n` is the input length, and `or` is
bitwise or.

## Left out

- `base64_decode` (src/lib.rs:38-72) is not modelled. It does not compile:
  it applies `%` to a byte slice, and `div_floor` is not a stable `usize`
  method. Its body is a copy of the encoder, and no test calls it.
  `Base64Inverse.Recovered` is a left inverse used only to prove
  injectivity. It is not a model of `base64_decode`.
- The `Vec::with_capacity` size hint (src/lib.rs:4) is not modelled as an
  allocation. In a release build its product `val.len()*4usize` wraps on
  overflow, and only the reserved capacity changes, not the output.
- Base64.Encode: proved to return `Encoded(val)` for inputs of any length,
  because lengths are unbounded here. In a debug build `val.len()*4usize`
  (src/lib.rs:4) is checked arithmetic. It panics once the length exceeds
  `usize::MAX / 4`. That is 16384 bytes or more with a 16-bit `usize`, 2^30
  bytes or more with a 32-bit one, and 2^62 bytes or more with a 64-bit one.
  The model does not capture this panic or the `usize` width.
- The `usize`-width comments (src/lib.rs:9, 27) are not modelled. Indices are
  `bv6` values, so they are below 64 by their type. Each narrowing to `bv6`
  is a proof obligation that the masked value fits.
- The `#[cfg(test)]` harness (src/lib.rs:74-90) is not modelled. Its three
  vectors are lemmas about `Encoded`, which `Base64.Encode` is proved to
  compute.
- `Vec::extend` on the growing output is modelled as sequence concatenation.
  `Encode` reads chunk byte `s[k]` as `val[i + k]`, for the chunk starting at
  `i`. It reads `rem[k]` the same way, since the remainder is `val[i..]` once
  the loop ends. The model has no slice values, and no aliasing or
  allocation.
- The alphabet is written as four runs of ASCII codes (`A`-`Z`, `a`-`z`,
  `0`-`9`, `+/`) instead of one string literal. The padding `b'='` is
  written as its ASCII code 0x3D.
