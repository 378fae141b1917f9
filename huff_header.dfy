/** The preorder tree encoding that `readTreeHeader` reads, and the proof that the parser
    inverts it: 1 bit per internal node, and per leaf a 1 bit and its value in 9 bits. */
module HuffHeader {
  import opened Bits
  import opened HuffProcessor

  /** A tree the header format can describe: no null node; every weight 0; a leaf has two
      null children and a 9-bit value; an internal node has value 0 and two such subtrees. */
  predicate Encodable(t: HuffNode) {
    match t
    case Null => false
    case Node(v, w, l, r) =>
      w == 0 &&
      if l.Null? && r.Null? then 0 <= v < Pow2(BITS_PER_WORD + 1)
      else v == 0 && Encodable(l) && Encodable(r)
  }

  predicate IsLeaf(t: HuffNode) {
    t.Node? && t.left.Null? && t.right.Null?
  }

  /** The preorder encoding of an encodable tree. */
  function HeaderBits(t: HuffNode): seq<Bit>
    requires Encodable(t)
  {
    if IsLeaf(t) then [1] + ToBits(t.value, BITS_PER_WORD + 1)
    else [0] + HeaderBits(t.left) + HeaderBits(t.right)
  }

  function InternalCount(t: HuffNode): nat {
    match t
    case Null => 0
    case Node(_, _, l, r) => if l.Null? && r.Null? then 0 else 1 + InternalCount(l) + InternalCount(r)
  }

  function LeafCount(t: HuffNode): nat {
    match t
    case Null => 0
    case Node(_, _, l, r) => if l.Null? && r.Null? then 1 else LeafCount(l) + LeafCount(r)
  }

  /** Round trip: wherever the encoding of `t` stands in the stream, whatever follows it,
      `readTreeHeader` rebuilds exactly `t` and stops right after the encoding, having read
      one bit per internal node and ten per leaf. */
  lemma {:induction false} HeaderRoundTrip(t: HuffNode, bits: seq<Bit>, pos: nat)
    requires Encodable(t)
    requires pos <= |bits| && HeaderBits(t) <= bits[pos..]
    ensures ReadTree(bits, pos) == Ok(Parsed(t, pos + |HeaderBits(t)|))
    ensures |HeaderBits(t)| == InternalCount(t) + 10 * LeafCount(t)
  {
    HeaderStandsAt(t, bits, pos);
    EncodingParses(t, bits, pos);
  }

  function EncodedSize(t: HuffNode): nat {
    InternalCount(t) + 10 * LeafCount(t)
  }

  /** The size of an internal node's encoding, stated once so that the recursive lemmas do not
      unfold the two counts themselves. */
  lemma {:induction false} InternalSize(t: HuffNode)
    requires t.Node? && !IsLeaf(t)
    ensures EncodedSize(t) == 1 + EncodedSize(t.left) + EncodedSize(t.right)
  {
  }

  /** The encoding of `t` stands in `bits` at `pos`, stated node by node. */
  predicate EncodedAt(t: HuffNode, bits: seq<Bit>, pos: nat)
    requires Encodable(t)
  {
    if IsLeaf(t) then
      pos + 10 <= |bits| && bits[pos] == 1 && bits[pos + 1..pos + 10] == ToBits(t.value, 9)
    else
      pos < |bits| && bits[pos] == 0 &&
      EncodedAt(t.left, bits, pos + 1) && EncodedAt(t.right, bits, pos + 1 + EncodedSize(t.left))
  }

  lemma {:induction false} HeaderStandsAt(t: HuffNode, bits: seq<Bit>, pos: nat)
    requires Encodable(t)
    requires pos <= |bits| && HeaderBits(t) <= bits[pos..]
    ensures EncodedAt(t, bits, pos) && |HeaderBits(t)| == EncodedSize(t)
  {
    var h := HeaderBits(t);
    if IsLeaf(t) {
      LeafStandsAt(bits, pos, ToBits(t.value, 9));
    } else {
      var hl, hr := HeaderBits(t.left), HeaderBits(t.right);
      assert h == [0] + hl + hr;
      SplitPrefix(bits, pos, hl, hr);
      HeaderStandsAt(t.left, bits, pos + 1);
      var m := pos + 1 + EncodedSize(t.left);
      assert m == pos + 1 + |hl|;
      HeaderStandsAt(t.right, bits, m);
      InternalSize(t);
    }
  }

  /** Where a leaf encoding `[1] + x` stands at `pos`, a 1 bit and then `x` are found there. */
  lemma {:induction false} LeafStandsAt(bits: seq<Bit>, pos: nat, x: seq<Bit>)
    requires pos <= |bits| && |x| == 9 && [1] + x <= bits[pos..]
    ensures pos + 10 <= |bits| && bits[pos] == 1 && bits[pos + 1..pos + 10] == x
  {
    var h := [1] + x;
    assert bits[pos..][0] == h[0];
    assert bits[pos + 1..pos + 10] == bits[pos..][1..10] == h[1..] == x;
  }

  lemma {:induction false} EncodingParses(t: HuffNode, bits: seq<Bit>, pos: nat)
    requires Encodable(t) && EncodedAt(t, bits, pos)
    ensures ReadTree(bits, pos) == Ok(Parsed(t, pos + EncodedSize(t)))
  {
    if IsLeaf(t) {
      LeafParses(t, bits, pos);
    } else {
      EncodingParses(t.left, bits, pos + 1);
      EncodingParses(t.right, bits, pos + 1 + EncodedSize(t.left));
      assert t == Node(0, 0, t.left, t.right);
      InternalStep(bits, pos, Parsed(t.left, pos + 1 + EncodedSize(t.left)),
                   Parsed(t.right, pos + 1 + EncodedSize(t.left) + EncodedSize(t.right)));
    }
  }

  /** Where `[0] + a + b` stands at `pos`, `a` stands one bit later and `b` right after it. */
  lemma {:induction false} SplitPrefix(bits: seq<Bit>, pos: nat, a: seq<Bit>, b: seq<Bit>)
    requires pos <= |bits| && [0] + a + b <= bits[pos..]
    ensures pos < |bits| && bits[pos] == 0
    ensures a <= bits[pos + 1..] && b <= bits[pos + 1 + |a|..]
  {
    var w := bits[pos..];
    assert bits[pos] == w[0];
    assert bits[pos + 1..] == w[1..];
    assert bits[pos + 1 + |a|..] == w[1 + |a|..];
    assert ([0] + a + b)[1..] == a + b;
  }

  lemma {:induction false} LeafParses(t: HuffNode, bits: seq<Bit>, pos: nat)
    requires Encodable(t) && IsLeaf(t) && EncodedAt(t, bits, pos)
    ensures ReadTree(bits, pos) == Ok(Parsed(t, pos + 10))
  {
    Pow2Values();
    ValueOfToBits(t.value, 9);
    ValueAtFrame(bits, pos + 1, ToBits(t.value, 9), 0, 9);
    assert ReadBitsAt(bits, pos + 1, 9) == t.value;
  }

  /** One step of the parser at a 0 bit, given what its two sub-parses return. */
  lemma {:induction false} InternalStep(bits: seq<Bit>, pos: nat, l: Parsed, r: Parsed)
    requires pos < |bits| && bits[pos] == 0
    requires ReadTree(bits, pos + 1) == Ok(l)
    requires l.next <= |bits| && ReadTree(bits, l.next) == Ok(r)
    ensures ReadTree(bits, pos) == Ok(Parsed(Node(0, 0, l.root, r.root), r.next))
  {
  }

  /** No leaf of the tree carries the value -1 that a truncated 9-bit read leaves. */
  predicate NoTruncatedLeaf(t: HuffNode) {
    match t
    case Null => true
    case Node(v, _, l, r) => v != -1 && NoTruncatedLeaf(l) && NoTruncatedLeaf(r)
  }

  /** The converse round trip: whatever `readTreeHeader` parses without a truncated leaf is an
      encodable tree, and the bits it consumed are exactly that tree's encoding. */
  lemma {:induction false} ParsedTreeIsEncoded(bits: seq<Bit>, pos: nat)
    requires pos <= |bits| && ReadTree(bits, pos).Ok?
    requires NoTruncatedLeaf(ReadTree(bits, pos).value.root)
    ensures var p := ReadTree(bits, pos).value;
              Encodable(p.root) && bits[pos..p.next] == HeaderBits(p.root)
  {
    ParsedStandsAt(bits, pos);
    var p := ReadTree(bits, pos).value;
    EncodedAtIsHeader(p.root, bits, pos);
  }

  lemma {:induction false} ParsedStandsAt(bits: seq<Bit>, pos: nat)
    requires pos <= |bits| && ReadTree(bits, pos).Ok?
    requires NoTruncatedLeaf(ReadTree(bits, pos).value.root)
    ensures var p := ReadTree(bits, pos).value;
              Encodable(p.root) && EncodedAt(p.root, bits, pos) && p.next == pos + EncodedSize(p.root)
    decreases |bits| - pos
  {
    var p := ReadTree(bits, pos).value;
    if bits[pos] == 0 {
      var l := ReadTree(bits, pos + 1).value;
      var r := ReadTree(bits, l.next).value;
      assert p == Parsed(Node(0, 0, l.root, r.root), r.next);
      ParsedStandsAt(bits, pos + 1);
      ParsedStandsAt(bits, l.next);
      InternalStandsAt(bits, pos, l, r);
    } else {
      Pow2Values();
      assert p == Parsed(Node(ValueAt(bits, pos + 1, 9), 0, Null, Null), pos + 10);
      LeafStandsAtValue(bits, pos);
    }
  }

  /** A 1 bit followed by 9 bits is the encoding of the leaf holding their value. */
  lemma {:induction false} LeafStandsAtValue(bits: seq<Bit>, pos: nat)
    requires pos + 10 <= |bits| && bits[pos] == 1
    ensures var t := Node(ValueAt(bits, pos + 1, 9), 0, Null, Null);
              Encodable(t) && EncodedAt(t, bits, pos) && EncodedSize(t) == 10
  {
    Pow2Values();
    ToBitsOfValueAt(bits, pos + 1, 9);
  }

  /** A 0 bit followed by the encodings of two trees is the encoding of the node above them. */
  lemma {:induction false} InternalStandsAt(bits: seq<Bit>, pos: nat, l: Parsed, r: Parsed)
    requires pos < |bits| && bits[pos] == 0
    requires Encodable(l.root) && EncodedAt(l.root, bits, pos + 1) && l.next == pos + 1 + EncodedSize(l.root)
    requires Encodable(r.root) && EncodedAt(r.root, bits, l.next) && r.next == l.next + EncodedSize(r.root)
    ensures var t := Node(0, 0, l.root, r.root);
              Encodable(t) && EncodedAt(t, bits, pos) && r.next == pos + EncodedSize(t)
  {
    var t := Node(0, 0, l.root, r.root);
    assert !IsLeaf(t);
    InternalSize(t);
  }

  lemma {:induction false} EncodedAtIsHeader(t: HuffNode, bits: seq<Bit>, pos: nat)
    requires Encodable(t) && EncodedAt(t, bits, pos)
    ensures pos + EncodedSize(t) <= |bits| && bits[pos..pos + EncodedSize(t)] == HeaderBits(t)
  {
    var e := pos + EncodedSize(t);
    if IsLeaf(t) {
      LeafIsHeader(t, bits, pos);
    } else {
      var m := pos + 1 + EncodedSize(t.left);
      assert e == m + EncodedSize(t.right);
      EncodedAtIsHeader(t.left, bits, pos + 1);
      EncodedAtIsHeader(t.right, bits, m);
      InternalSlice(bits, pos, m, e, HeaderBits(t.left), HeaderBits(t.right));
    }
  }

  /** A 0 bit followed by two slices is that bit before both; sequence reasoning kept out of
      `EncodedAtIsHeader`. */
  lemma {:induction false} InternalSlice(bits: seq<Bit>, i: nat, j: nat, k: nat, a: seq<Bit>, b: seq<Bit>)
    requires i < j <= k <= |bits| && bits[i] == 0 && bits[i + 1..j] == a && bits[j..k] == b
    ensures bits[i..k] == [0] + a + b
  {
    SliceAfterBit(bits, i, j, k);
  }

  /** The leaf case of `EncodedAtIsHeader`. */
  lemma {:induction false} LeafIsHeader(t: HuffNode, bits: seq<Bit>, pos: nat)
    requires Encodable(t) && IsLeaf(t) && EncodedAt(t, bits, pos)
    ensures pos + 10 <= |bits| && bits[pos..pos + 10] == HeaderBits(t)
  {
    assert bits[pos..pos + 10] == [bits[pos]] + bits[pos + 1..pos + 10];
  }

  /** A slice split after its first bit and again at `j`. */
  lemma {:induction false} SliceAfterBit(bits: seq<Bit>, i: nat, j: nat, k: nat)
    requires i < j <= k <= |bits|
    ensures bits[i..k] == [bits[i]] + bits[i + 1..j] + bits[j..k]
  {
  }

  lemma {:induction false} EncodedAtAppend(t: HuffNode, bits: seq<Bit>, pos: nat, more: seq<Bit>)
    requires Encodable(t) && EncodedAt(t, bits, pos)
    ensures EncodedAt(t, bits + more, pos)
  {
    if IsLeaf(t) {
      assert (bits + more)[pos + 1..pos + 10] == bits[pos + 1..pos + 10];
    } else {
      EncodedAtAppend(t.left, bits, pos + 1, more);
      EncodedAtAppend(t.right, bits, pos + 1 + EncodedSize(t.left), more);
    }
  }

  /** A leaf cut short: a 1 bit followed by fewer than 9 bits parses as a leaf of value -1
      that consumes only its 1 bit, rather than failing. */
  lemma {:induction false} TruncatedLeaf(bits: seq<Bit>, pos: nat)
    requires pos < |bits| && bits[pos] == 1 && |bits| < pos + 10
    ensures ReadTree(bits, pos) == Ok(Parsed(Node(-1, 0, Null, Null), pos + 1))
  {
  }

  /** A parse without a truncated leaf reads nothing beyond its own encoding: appending
      bits to the stream does not change what it returns. */
  lemma {:induction false} ParseIgnoresWhatFollows(bits: seq<Bit>, pos: nat, more: seq<Bit>)
    requires pos <= |bits| && ReadTree(bits, pos).Ok?
    requires NoTruncatedLeaf(ReadTree(bits, pos).value.root)
    ensures ReadTree(bits + more, pos) == ReadTree(bits, pos)
  {
    var p := ReadTree(bits, pos).value;
    ParsedStandsAt(bits, pos);
    EncodedAtAppend(p.root, bits, pos, more);
    EncodingParses(p.root, bits + more, pos);
  }
}
