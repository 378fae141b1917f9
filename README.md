# Huffman processor: decompression of tree-headed files, and `compress`

This project models `HuffProcessor` from `src/HuffProcessor.java` in Dafny. That class reads and writes
files in a tree-headed Huffman format:

- **`decompress`** reads a 32-bit magic number and rejects anything but `HUFF_TREE` (`0xface8200 | 1`).
  It then rebuilds the code tree from a preorder header (`readTreeHeader`) and decodes the rest of the
  stream bit by bit against that tree (`ReadCompressedBits`).
- **`compress`**, as it stands in this source, copies the input to the output in 8-bit words.

Bit streams are modelled from the outside only:
- an input stream (`BitStreams.BitInputStream`) is a fixed bit string and a cursor;
- an output stream (`BitStreams.BitOutputStream`) is an append-only bit string;
- `readBits(n)` returns the next `n` bits as a number, most significant first, or `-1` when fewer than
  `n` remain. The 32-bit read is a signed Java `int`. The stream class is not part of this source, so
  what a read returning `-1` does to the cursor is a choice of this model: it consumes nothing;
- `writeBits(n, v)` appends the low `n` bits of `v`, so a negative `v` is written in two's complement.

Each state-changing operation is a method over the stream objects. It is proved against a pure function
of the bits and the cursor, and the properties are proved about that function:

| Operation | Method | Function |
|---|---|---|
| Tree header | `ReadTreeHeader` | `ReadTree` |
| Stream decoder | `ReadCompressedBits` | `Decoding` |
| Whole decompression | `Decompress` | `Decompression` |

`HuffNode` is a datatype with a `Null` case standing for a Java `null`. Every `HuffException`, and the
null dereference the decoder can hit, is one failure result. Bits written before a failure stay in the
output stream's bit string; whether they reach the file is not modelled.

Files:
- `bits.dfy`: bit strings as numbers and back.
- `streams.dfy`: the two stream classes.
- `huff_processor.dfy`: the constants and the four operations.
- `huff_header.dfy`: the header encoding and the parser's round trip, in both directions.
- `huff_decode.dfy`: what the decoder does with code paths, truncation, and end-to-end decompression.

The model follows the code where the code departs from the format as it is documented:
- **Truncated leaf.** The 9-bit read of a leaf value is not checked (src/HuffProcessor.java:126). A
  header cut inside its last leaf therefore yields a leaf of value `-1` instead of failing. Under this
  stream model, where a read returning `-1` consumes nothing, `HuffDecode.CutHeaderAccepted` exhibits a
  file cut inside its header that decompresses successfully to nothing. The documented format says such
  a file fails.
- **Symbol width.** Decoded symbols are written as 9 bits, not as 8-bit bytes.
- **Leaf detection.** A node is a leaf when its value is non-zero, not when it has no children. A leaf
  of value 0 is a dead end.

## Model

| member | source | states |
|---|---|---|
| Bits.ReadBitsAt | src/HuffProcessor.java:48-49 | `readBits(n)` for n < 32 returns -1 exactly when fewer than n bits remain; otherwise it returns an n-bit number |
| Bits.JavaInt | src/HuffProcessor.java:64-65 | a 32-bit read is a signed Java int: within [-2^31, 2^31) and congruent to the bit pattern modulo 2^32 |
| Bits.ReadThenWrite | src/HuffProcessor.java:48-50 | writing back with `writeBits(n, _)` the value `readBits(n)` returned reproduces exactly the n bits read, also for n = 32 with a negative result |
| Bits.ValueOfToBits | src/HuffProcessor.java:126 | an n-bit number written as n bits reads back as the same number |
| Bits.ToBitsOfValueAt | src/HuffProcessor.java:126 | the number held in an n-bit field, written back as n bits, is the field itself |
| Bits.LeadingZero | src/HuffProcessor.java:126 | a number below 2^(n-1), written in n bits, starts with a 0 bit |
| BitStreams.BitInputStream.ReadBits | src/HuffProcessor.java:48 | returns `readBits(n)` at the cursor; advances the cursor by n when n bits remain, otherwise leaves it |
| BitStreams.BitOutputStream.WriteBits | src/HuffProcessor.java:50 | appends the low n bits of the value and changes nothing else |
| HuffProcessor.MagicWord | src/HuffProcessor.java:64-65 | comparing the signed `readBits(32)` with `HUFF_TREE` (0xface8200 with its low bit set) accepts exactly the 32 bits 0xface8201, and never the -1 of an exhausted stream |
| HuffProcessor.ReadTree | src/HuffProcessor.java:111-131 | a successful parse consumes at least one bit and stays in the stream; with no bit left it fails |
| HuffProcessor.ReadTreeShape | src/HuffProcessor.java:116-128 | a parsed tree is a node of weight 0. After a 0 bit it has value 0, and its left and right children are the trees parsed first and second. After a 1 bit it is a childless leaf holding the next 9 bits, or -1 when fewer remain |
| HuffProcessor.ReadTreeHeader | src/HuffProcessor.java:111-131 | succeeds exactly when `ReadTree` does, returns its tree and leaves the cursor right after the header; a failure leaves the stream exhausted |
| HuffProcessor.Decoding | src/HuffProcessor.java:84-103 | the decoder stays in the stream, makes progress before stopping at PSEUDO_EOF, and only appends to its output, in whole 9-bit words |
| HuffProcessor.ReadCompressedBits | src/HuffProcessor.java:81-104 | the loop returns the outcome `Decoding` gives, leaves the cursor where it stops and appends exactly its output |
| HuffProcessor.Decompression | src/HuffProcessor.java:62-70 | success, or any output at all, requires the first 32 bits to be 0xface8201 |
| HuffProcessor.MagicMismatch | src/HuffProcessor.java:64-67 | any other first word fails with no output, having consumed only that word and no tree bit |
| HuffProcessor.Decompress | src/HuffProcessor.java:62-72 | the magic check, header parse and decode return the outcome `Decompression` gives, leave the cursor where it stops and append exactly its output |
| HuffProcessor.Compress | src/HuffProcessor.java:45-52 | the output gains exactly the input from the cursor, cut down to whole 8-bit words, in order; the cursor stops after the last whole word |
| HuffHeader.HeaderRoundTrip | src/HuffProcessor.java:111-131 | the preorder encoding of any encodable tree, followed by anything, parses back to that tree. The parse ends right after the encoding, which is 1 bit per internal node plus 10 per leaf |
| HuffHeader.EncodingParses | src/HuffProcessor.java:111-131 | an encoding found node by node in the stream parses to its tree, ending right after it |
| HuffHeader.ParsedTreeIsEncoded | src/HuffProcessor.java:111-131 | conversely, a parse without a truncated leaf gives an encodable tree, and the bits it consumed are exactly that tree's encoding |
| HuffHeader.ParsedStandsAt | src/HuffProcessor.java:111-131 | a parse without a truncated leaf gives an encodable tree whose encoding stands where the parse began and is as long as the parse |
| HuffHeader.EncodedAtIsHeader | src/HuffProcessor.java:111-131 | an encoding found node by node in the stream is the tree's preorder encoding, bit for bit |
| HuffHeader.ParseIgnoresWhatFollows | src/HuffProcessor.java:111-131 | a parse without a truncated leaf never looks past its own encoding: appending bits does not change its result |
| HuffHeader.TruncatedLeaf | src/HuffProcessor.java:125-128 | a 1 bit followed by fewer than 9 bits parses as a leaf of value -1 that consumes only its 1 bit, rather than failing |
| HuffDecode.DecodePath | src/HuffProcessor.java:86-101 | following a code bit by bit through value-0 nodes: a symbol's code writes the symbol as 9 bits and restarts at the root; the PSEUDO_EOF code stops successfully right after its last bit, writing nothing |
| HuffDecode.DecodePathCut | src/HuffProcessor.java:86-89 | a code cut off by the end of the stream fails, writing nothing more |
| HuffDecode.Emitted | src/HuffProcessor.java:99 | the decoder's output for k symbols is 9k bits |
| HuffDecode.DecodeMessage | src/HuffProcessor.java:84-103 | the codes of a sequence of ordinary symbols, then the PSEUDO_EOF code, decode to those symbols' 9-bit words in order. Decoding stops right after the PSEUDO_EOF code, whatever follows |
| HuffDecode.DecodeMessageCut | src/HuffProcessor.java:86-89 | such a message cut anywhere before the end of its PSEUDO_EOF code fails |
| HuffDecode.ZeroLeafDeadEnd | src/HuffProcessor.java:89-94 | reaching a childless node of value 0 writes nothing and does not return to the root; the next bit reaches null and fails |
| HuffDecode.MagicBitsAccepted | src/HuffProcessor.java:21-22 | a stream starting with the 32 bits of 0xface8201 passes the comparison with `HUFF_TREE` |
| HuffDecode.HeaderAccepted | src/HuffProcessor.java:64-70 | after the magic number and a tree's header, decompression decodes the rest with that tree, starting at the root |
| HuffDecode.DecompressRoundTrip | src/HuffProcessor.java:62-72 | a file holding the magic number, the header of an encodable tree, the codes of some ordinary symbols and the PSEUDO_EOF code decompresses successfully to the symbols' 9-bit words |
| HuffDecode.DecompressCutStream | src/HuffProcessor.java:62-72 | such a file cut after its header and before the end of its PSEUDO_EOF code fails to decompress |
| HuffDecode.CutHeaderAccepted | src/HuffProcessor.java:125-128 | a file for one byte under the tree (PSEUDO_EOF, byte) decompresses to that byte. Cut inside its header's last leaf, it is still accepted and yields nothing |

## Left out

- The internals of `BitInputStream` and `BitOutputStream` are not part of this model: buffering, flushing and the padding of the last byte. The streams are a bit string with a cursor and an append-only bit string.
- `out.close()` (src/HuffProcessor.java:71) is I/O lifecycle only.
- The `System.out.println` debug output and `myDebugLevel`/the constructors (src/HuffProcessor.java:24-35) have no effect on the result.
- Exception messages are not modelled. `HuffException` and the null dereference are one failure result.
- There is no frequency counting, tree building, code table or Huffman encoding in this source, so none is modelled. `compress` is the pass-through it is.
- The `HuffNode` class is not part of this model. It is a datatype with the value, weight and children its uses need.
- The underlying read and write errors of the streams (I/O failures) are not modelled.
- HuffDecode.CutHeaderAccepted: the cursor position after a read that returns -1 is this model's choice (nothing is consumed); the stream class is not part of this source. The acceptance of the cut file depends on that choice: if a failed read consumed the remaining bits, the next code bit would read -1 and decompression would fail. The unchecked 9-bit read yielding a leaf of value -1 does not depend on it.
- HuffHeader.TruncatedLeaf: "consumes only its 1 bit" rests on the same choice about a read that returns -1.
- HuffDecode.DecodeMessageCut: states only that a cut message fails, not which symbols were written before the failure.
