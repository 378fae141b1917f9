/** The Huffman processor: the magic-number check, the preorder tree-header parser, the
    bit-by-bit stream decoder and the pass-through `compress` of src/HuffProcessor.java.
    Each operation that consumes a stream is a method over the stream objects, proved
    against a pure function of the bits and the cursor that specifies it. */
module HuffProcessor {
  import opened Bits
  import opened BitStreams

  const BITS_PER_WORD: nat := 8
  const BITS_PER_INT: nat := 32
  /** 1 << BITS_PER_WORD */
  const ALPH_SIZE: int := 256
  /** The end-of-stream pseudo-symbol. */
  const PSEUDO_EOF: int := ALPH_SIZE
  const HUFF_NUMBER: bv32 := 0xface8200
  /** The magic number of a tree-headed file, as the Java `int` it is compared with. */
  const HUFF_TREE: int := JavaInt((HUFF_NUMBER | 1) as int)

  /** A Huffman tree node; `Null` stands for a null reference. */
  datatype HuffNode = Null | Node(value: int, weight: int, left: HuffNode, right: HuffNode)

  /** The outcome of an operation that may throw; every `HuffException` and the null
      dereference of the decoder are the single `Failure`. */
  datatype Result<T> = Ok(value: T) | Failure

  /** A parsed tree and the cursor just after its encoding. */
  datatype Parsed = Parsed(root: HuffNode, next: nat)

  /** The child a bit selects: 0 is left, 1 is right. */
  function Child(n: HuffNode, bit: Bit): HuffNode
    requires n.Node?
  {
    if bit == 0 then n.left else n.right
  }

  // ---------------------------------------------------------------------------------------
  // Tree header

  /** `readTreeHeader` from cursor `pos`. A 0 bit is an internal node whose left subtree is
      parsed first and right subtree second; a 1 bit is a leaf whose value is the next 9 bits,
      which is -1 (and consumes nothing) when fewer than 9 bits remain; no bit at all fails.
      A successful parse consumes at least one bit and stays within the stream. */
  function ReadTree(bits: seq<Bit>, pos: nat): (r: Result<Parsed>)
    requires pos <= |bits|
    ensures r.Ok? ==> pos < r.value.next <= |bits|
    ensures pos == |bits| ==> r.Failure?
    decreases |bits| - pos
  {
    var bit := ReadBitsAt(bits, pos, 1);
    if bit == -1 then Failure
    else if bit == 0 then
      match ReadTree(bits, pos + 1)
      case Failure => Failure
      case Ok(left) =>
        match ReadTree(bits, left.next)
        case Failure => Failure
        case Ok(right) => Ok(Parsed(Node(0, 0, left.root, right.root), right.next))
    else
      var value := ReadBitsAt(bits, pos + 1, BITS_PER_WORD + 1);
      Ok(Parsed(Node(value, 0, Null, Null), if value == -1 then pos + 1 else pos + 1 + BITS_PER_WORD + 1))
  }

  /** Shape of what the parser builds: a node, never null, of weight 0. After a 0 bit it is an
      internal node of value 0 whose left child is the tree parsed right after that bit and
      whose right child is the tree parsed after the left one; both are nodes of weight 0.
      After a 1 bit it is a leaf with two null children whose value is the next 9 bits, or -1
      when fewer remain. */
  lemma {:induction false} ReadTreeShape(bits: seq<Bit>, pos: nat)
    decreases |bits| - pos
    requires pos <= |bits| && ReadTree(bits, pos).Ok?
    ensures var t := ReadTree(bits, pos).value.root;
              pos < |bits| && t.Node? && t.weight == 0 &&
              (bits[pos] == 0 ==>
                 t.value == 0 && t.left.Node? && t.right.Node? && t.left.weight == 0 && t.right.weight == 0 &&
                 ReadTree(bits, pos + 1).Ok? && t.left == ReadTree(bits, pos + 1).value.root &&
                 ReadTree(bits, ReadTree(bits, pos + 1).value.next).Ok? &&
                 t.right == ReadTree(bits, ReadTree(bits, pos + 1).value.next).value.root) &&
              (bits[pos] == 1 ==>
                 t.left.Null? && t.right.Null? && -1 <= t.value < Pow2(9) &&
                 (pos + 10 <= |bits| ==> t.value == ValueAt(bits, pos + 1, 9)) &&
                 (pos + 10 > |bits| ==> t.value == -1))
  {
    Pow2Values();
    if bits[pos] == 0 {
      var l := ReadTree(bits, pos + 1).value;
      ReadTreeShape(bits, pos + 1);
      ReadTreeShape(bits, l.next);
    }
  }

  /** `readTreeHeader`: parses the tree at the stream's cursor and leaves the cursor after it;
      when it fails, the stream was exhausted where a structure bit was expected. */
  method ReadTreeHeader(inp: BitInputStream) returns (r: Result<HuffNode>)
    requires inp.Valid()
    modifies inp
    ensures inp.Valid()
    ensures var p := ReadTree(inp.bits, old(inp.pos));
              (r.Ok? <==> p.Ok?) && (p.Ok? ==> r.value == p.value.root && inp.pos == p.value.next)
    ensures r.Failure? ==> inp.pos == |inp.bits|
    decreases |inp.bits| - inp.pos
  {
    var bit := inp.ReadBits(1);
    if bit == -1 {
      return Failure;
    } else if bit == 0 {
      var left := ReadTreeHeader(inp);
      if left.Failure? {
        return Failure;
      }
      var right := ReadTreeHeader(inp);
      if right.Failure? {
        return Failure;
      }
      return Ok(Node(0, 0, left.value, right.value));
    } else {
      var value := inp.ReadBits(BITS_PER_WORD + 1);
      return Ok(Node(value, 0, Null, Null));
    }
  }

  // ---------------------------------------------------------------------------------------
  // Stream decoder

  /** What the decoder did: the bits it wrote, the cursor where it stopped, and whether it
      stopped at the pseudo-EOF (`ok`) or by failing. Bits written before a failure stay
      written. */
  datatype Decoded = Decoded(output: seq<Bit>, next: nat, ok: bool)

  /** The decoder loop of `ReadCompressedBits` from node `current` at cursor `pos`, having
      written `acc`. Each step reads one bit and moves to the child it selects; stepping from or
      to a null node fails; a node valued PSEUDO_EOF stops; any other non-zero value is written
      as 9 bits and the walk restarts at `root`; a node valued 0 neither writes nor restarts.
      Running out of bits fails. The output only grows, by whole 9-bit words. */
  function Decoding(root: HuffNode, current: HuffNode, bits: seq<Bit>, pos: nat, acc: seq<Bit>): (d: Decoded)
    requires pos <= |bits|
    ensures pos <= d.next <= |bits|
    ensures acc <= d.output && (|d.output| - |acc|) % (BITS_PER_WORD + 1) == 0
    ensures d.ok ==> pos < d.next
    decreases |bits| - pos
  {
    if pos == |bits| then Decoded(acc, pos, false)
    else if current.Null? then Decoded(acc, pos + 1, false)
    else
      var next := Child(current, bits[pos]);
      if next.Null? then Decoded(acc, pos + 1, false)
      else if next.value == 0 then Decoding(root, next, bits, pos + 1, acc)
      else if next.value == PSEUDO_EOF then Decoded(acc, pos + 1, true)
      else
        var acc' := acc + LowBits(next.value, BITS_PER_WORD + 1);
        var d := Decoding(root, root, bits, pos + 1, acc');
        WordStep(|d.output|, |acc|);
        d
  }

  /** One more word of output keeps the output a whole number of words; kept apart so that
      `Decoding` does not reason about `%` itself. */
  lemma {:induction false} WordStep(total: int, before: int)
    requires (total - (before + (BITS_PER_WORD + 1))) % (BITS_PER_WORD + 1) == 0
    ensures (total - before) % (BITS_PER_WORD + 1) == 0
  {
  }

  /** `ReadCompressedBits`: decodes from the stream's cursor into `out`. */
  method ReadCompressedBits(root: HuffNode, inp: BitInputStream, out: BitOutputStream) returns (ok: bool)
    requires inp.Valid()
    modifies inp, out
    ensures inp.Valid()
    ensures var d := Decoding(root, root, inp.bits, old(inp.pos), []);
              ok == d.ok && inp.pos == d.next && out.written == old(out.written) + d.output
  {
    var current := root;
    while true
      invariant inp.Valid() && old(inp.pos) <= inp.pos
      invariant old(out.written) <= out.written
      invariant Decoding(root, root, inp.bits, old(inp.pos), [])
             == Decoding(root, current, inp.bits, inp.pos, out.written[|old(out.written)|..])
      decreases |inp.bits| - inp.pos
    {
      ghost var acc := out.written[|old(out.written)|..];
      var bit := inp.ReadBits(1);
      if bit == -1 {
        return false;
      }
      assert bit == inp.bits[inp.pos - 1];
      if current.Null? {
        return false;
      }
      current := if bit == 0 then current.left else current.right;
      if current.Null? {
        return false;
      }
      if current.value != 0 {
        if current.value == PSEUDO_EOF {
          break;
        } else {
          out.WriteBits(BITS_PER_WORD + 1, current.value);
          assert out.written[|old(out.written)|..] == acc + LowBits(current.value, BITS_PER_WORD + 1);
          current := root;
        }
      }
    }
    return true;
  }

  // ---------------------------------------------------------------------------------------
  // Decompression and compression

  /** `decompress` from cursor `pos`: a 32-bit word other than HUFF_TREE fails before any
      tree bit is read and without output; then the tree header is read (its failure leaves
      the stream exhausted), then the stream is decoded with that tree. */
  function Decompression(bits: seq<Bit>, pos: nat): (d: Decoded)
    requires pos <= |bits|
    ensures pos <= d.next <= |bits|
    ensures d.ok ==> pos + BITS_PER_INT <= |bits| && ValueAt(bits, pos, BITS_PER_INT) == 0xface8201
    ensures d.output != [] ==> pos + BITS_PER_INT <= |bits| && ValueAt(bits, pos, BITS_PER_INT) == 0xface8201
  {
    MagicWord(bits, pos);
    if ReadBitsAt(bits, pos, BITS_PER_INT) != HUFF_TREE then
      Decoded([], if pos + BITS_PER_INT <= |bits| then pos + BITS_PER_INT else pos, false)
    else
      match ReadTree(bits, pos + BITS_PER_INT)
      case Failure => Decoded([], |bits|, false)
      case Ok(p) => Decoding(p.root, p.root, bits, p.next, [])
  }

  /** The signed comparison of `readBits(32)` with HUFF_TREE accepts exactly the 32 bits
      0xface8201, and never the end-of-stream sentinel. */
  lemma {:induction false} MagicWord(bits: seq<Bit>, pos: nat)
    ensures ReadBitsAt(bits, pos, 32) == HUFF_TREE <==>
              pos + 32 <= |bits| && ValueAt(bits, pos, 32) == 0xface8201
  {
    assert (HUFF_NUMBER | 1) as int == 0xface8201;
    assert HUFF_TREE == 0xface8201 - TWO_TO_32;
    if pos + 32 <= |bits| {
      Pow2Values();
      var u := ValueAt(bits, pos, 32);
      assert ReadBitsAt(bits, pos, 32) == JavaInt(u);
    }
  }

  /** A first word other than the magic number fails with no output, having consumed that
      word and no tree bit (or nothing, when fewer than 32 bits remain). */
  lemma {:induction false} MagicMismatch(bits: seq<Bit>, pos: nat)
    requires pos <= |bits|
    requires !(pos + 32 <= |bits| && ValueAt(bits, pos, 32) == 0xface8201)
    ensures Decompression(bits, pos) == Decoded([], if pos + 32 <= |bits| then pos + 32 else pos, false)
  {
    MagicWord(bits, pos);
  }

  /** `decompress`. */
  method Decompress(inp: BitInputStream, out: BitOutputStream) returns (ok: bool)
    requires inp.Valid()
    modifies inp, out
    ensures inp.Valid()
    ensures var d := Decompression(inp.bits, old(inp.pos));
              ok == d.ok && inp.pos == d.next && out.written == old(out.written) + d.output
  {
    var bits := inp.ReadBits(BITS_PER_INT);
    if bits != HUFF_TREE {
      return false;
    }
    MagicWord(inp.bits, old(inp.pos));
    var root := ReadTreeHeader(inp);
    if root.Failure? {
      return false;
    }
    ok := ReadCompressedBits(root.value, inp, out);
  }

  /** `compress` as it stands: copies 8-bit words until fewer than 8 bits remain, so the
      output is the input cut down to whole bytes, and the cursor stops after the last of them. */
  method Compress(inp: BitInputStream, out: BitOutputStream)
    requires inp.Valid()
    modifies inp, out
    ensures inp.Valid()
    ensures var whole := (|inp.bits| - old(inp.pos)) / 8 * 8;
              inp.pos == old(inp.pos) + whole &&
              out.written == old(out.written) + inp.bits[old(inp.pos)..old(inp.pos) + whole]
  {
    ghost var start, bits := inp.pos, inp.bits;
    ghost var words: nat := 0;
    while true
      invariant inp.Valid() && inp.bits == bits && inp.pos == start + 8 * words
      invariant out.written == old(out.written) + bits[start..inp.pos]
      decreases |bits| - inp.pos
    {
      var val := inp.ReadBits(BITS_PER_WORD);
      if val == -1 {
        break;
      }
      ReadThenWrite(bits, inp.pos - 8, 8);
      out.WriteBits(BITS_PER_WORD, val);
      AppendSlice(old(out.written), bits, start, inp.pos - 8, inp.pos);
      words := words + 1;
    }
    WholeWords(|bits| - start, words);
  }

  /** Appending the slice that follows a slice extends it; kept apart to keep sequence
      extensionality out of the loop of `Compress`. */
  lemma {:induction false} AppendSlice(w: seq<Bit>, bits: seq<Bit>, i: nat, j: nat, k: nat)
    requires i <= j <= k <= |bits|
    ensures w + bits[i..j] + bits[j..k] == w + bits[i..k]
  {
    assert bits[i..k] == bits[i..j] + bits[j..k];
  }

  /** The count of whole 8-bit words in a length, in the form the loop of `Compress` ends with. */
  lemma {:induction false} WholeWords(len: nat, words: nat)
    requires 8 * words <= len < 8 * words + 8
    ensures 8 * words == len / 8 * 8
  {
  }
}
