/** What the stream decoder of `ReadCompressedBits` does with code paths through the tree it
    was given: a path to a symbol emits that symbol, a path to PSEUDO_EOF stops, a cut-off
    path fails, and a path to a value-0 leaf is a dead end. Together with the header round
    trip this gives the end-to-end behaviour of `decompress`. */
module HuffDecode {
  import opened Bits
  import opened HuffProcessor
  import opened HuffHeader

  /** `p` is a code of `v` from `current`: each step of `p` reaches a node, every node reached
      before the last is valued 0, and the last is valued `v`. */
  predicate Leads(current: HuffNode, p: seq<Bit>, v: int)
    decreases |p|
  {
    |p| > 0 && current.Node? && Child(current, p[0]).Node? &&
    if |p| == 1 then Child(current, p[0]).value == v
    else Child(current, p[0]).value == 0 && Leads(Child(current, p[0]), p[1..], v)
  }

  /** Where `a + b` stands at `pos`, `a` stands at `pos` and `b` right after it. */
  lemma {:induction false} SplitAt(bits: seq<Bit>, pos: nat, a: seq<Bit>, b: seq<Bit>)
    requires pos <= |bits| && a + b <= bits[pos..]
    ensures pos + |a| <= |bits| && a <= bits[pos..] && b <= bits[pos + |a|..]
  {
    assert bits[pos + |a|..] == bits[pos..][|a|..];
    assert (a + b)[|a|..] == b;
  }

  /** Following one code: a symbol's code emits the symbol as 9 bits and returns to the root;
      the PSEUDO_EOF code stops successfully right after its last bit, emitting nothing. */
  lemma {:induction false} DecodePath(root: HuffNode, current: HuffNode, bits: seq<Bit>, pos: nat,
                                      acc: seq<Bit>, p: seq<Bit>, v: int)
    requires Leads(current, p, v) && v != 0
    requires pos <= |bits| && p <= bits[pos..]
    ensures pos + |p| <= |bits|
    ensures Decoding(root, current, bits, pos, acc) ==
              if v == PSEUDO_EOF then Decoded(acc, pos + |p|, true)
              else Decoding(root, root, bits, pos + |p|, acc + LowBits(v, BITS_PER_WORD + 1))
    decreases |p|
  {
    assert bits[pos] == bits[pos..][0] == p[0];
    if |p| > 1 {
      SplitAt(bits, pos, [p[0]], p[1..]);
      DecodePath(root, Child(current, p[0]), bits, pos + 1, acc, p[1..], v);
    }
  }

  /** A code cut off by the end of the stream fails: every node it passes is valued 0, so
      the decoder neither stops nor emits before the bits run out. */
  lemma {:induction false} DecodePathCut(root: HuffNode, current: HuffNode, bits: seq<Bit>, pos: nat,
                                         acc: seq<Bit>, p: seq<Bit>, v: int)
    requires Leads(current, p, v)
    requires pos <= |bits| && |bits| - pos < |p| && bits[pos..] <= p
    ensures Decoding(root, current, bits, pos, acc) == Decoded(acc, |bits|, false)
    decreases |p|
  {
    if pos < |bits| {
      assert bits[pos] == bits[pos..][0] == p[0];
      assert bits[pos + 1..] == bits[pos..][1..] <= p[1..];
      DecodePathCut(root, Child(current, p[0]), bits, pos + 1, acc, p[1..], v);
    }
  }

  function Flatten(codes: seq<seq<Bit>>): seq<Bit> {
    if codes == [] then [] else codes[0] + Flatten(codes[1..])
  }

  /** What the decoder writes for `syms`: each symbol's low 9 bits, in order. */
  function Emitted(syms: seq<int>): (out: seq<Bit>)
    ensures |out| == 9 * |syms|
  {
    if syms == [] then [] else LowBits(syms[0], BITS_PER_WORD + 1) + Emitted(syms[1..])
  }

  /** `codes[i]` is a code of the ordinary symbol `syms[i]` in the tree `root`. */
  predicate CodesFor(root: HuffNode, codes: seq<seq<Bit>>, syms: seq<int>) {
    |codes| == |syms| &&
    forall i :: 0 <= i < |codes| ==> Leads(root, codes[i], syms[i]) && syms[i] != 0 && syms[i] != PSEUDO_EOF
  }

  /** The first code of a message and the codes of the rest. */
  lemma {:induction false} FirstCode(root: HuffNode, codes: seq<seq<Bit>>, syms: seq<int>, eof: seq<Bit>)
    requires CodesFor(root, codes, syms) && codes != []
    ensures Leads(root, codes[0], syms[0]) && syms[0] != 0 && syms[0] != PSEUDO_EOF
    ensures CodesFor(root, codes[1..], syms[1..])
    ensures Flatten(codes) + eof == codes[0] + (Flatten(codes[1..]) + eof)
  {
    forall i | 0 <= i < |codes| - 1
      ensures Leads(root, codes[1..][i], syms[1..][i])
    {
      assert Leads(root, codes[i + 1], syms[i + 1]);
    }
  }

  /** The output for a nonempty symbol sequence, one symbol at a time; kept apart to keep
      sequence associativity out of `DecodeMessage`. */
  lemma {:induction false} EmittedFirst(acc: seq<Bit>, syms: seq<int>)
    requires syms != []
    ensures acc + LowBits(syms[0], BITS_PER_WORD + 1) + Emitted(syms[1..]) == acc + Emitted(syms)
  {
  }

  /** Where the stream holds less than `c + y` from `pos` and agrees with it, it agrees with
      `c` when it ends within `c`, and otherwise holds `c` and then agrees with `y`. */
  lemma {:induction false} SplitCut(bits: seq<Bit>, pos: nat, c: seq<Bit>, y: seq<Bit>)
    requires pos <= |bits| && bits[pos..] <= c + y
    ensures |bits| - pos < |c| ==> bits[pos..] <= c
    ensures |bits| - pos >= |c| ==> c <= bits[pos..] && bits[pos + |c|..] <= y
  {
    if |bits| - pos >= |c| {
      assert bits[pos..][..|c|] == (c + y)[..|c|] == c;
      assert bits[pos + |c|..] == bits[pos..][|c|..] <= (c + y)[|c|..] == y;
    }
  }

  /** Decoding a message: the codes of `syms` followed by the PSEUDO_EOF code decode to the
      9-bit words of `syms`, stopping right after the PSEUDO_EOF code whatever follows it. */
  lemma {:induction false} DecodeMessage(root: HuffNode, codes: seq<seq<Bit>>, syms: seq<int>, eof: seq<Bit>,
                                         bits: seq<Bit>, pos: nat, acc: seq<Bit>)
    requires CodesFor(root, codes, syms) && Leads(root, eof, PSEUDO_EOF)
    requires pos <= |bits| && Flatten(codes) + eof <= bits[pos..]
    ensures Decoding(root, root, bits, pos, acc) ==
              Decoded(acc + Emitted(syms), pos + |Flatten(codes) + eof|, true)
    decreases |codes|
  {
    if codes == [] {
      assert Flatten(codes) + eof == eof;
      DecodePath(root, root, bits, pos, acc, eof, PSEUDO_EOF);
    } else {
      var c := codes[0];
      FirstCode(root, codes, syms, eof);
      SplitAt(bits, pos, c, Flatten(codes[1..]) + eof);
      DecodePath(root, root, bits, pos, acc, c, syms[0]);
      DecodeMessage(root, codes[1..], syms[1..], eof, bits, pos + |c|, acc + LowBits(syms[0], BITS_PER_WORD + 1));
      EmittedFirst(acc, syms);
    }
  }

  /** Corruption detection for the coded stream: when the stream ends anywhere before the
      last bit of the PSEUDO_EOF code, decoding fails. */
  lemma {:induction false} DecodeMessageCut(root: HuffNode, codes: seq<seq<Bit>>, syms: seq<int>, eof: seq<Bit>,
                                            bits: seq<Bit>, pos: nat, acc: seq<Bit>)
    requires CodesFor(root, codes, syms) && Leads(root, eof, PSEUDO_EOF)
    requires pos <= |bits| && |bits| - pos < |Flatten(codes) + eof| && bits[pos..] <= Flatten(codes) + eof
    ensures !Decoding(root, root, bits, pos, acc).ok
    decreases |codes|
  {
    if codes == [] {
      assert Flatten(codes) + eof == eof;
      DecodePathCut(root, root, bits, pos, acc, eof, PSEUDO_EOF);
    } else {
      var c := codes[0];
      FirstCode(root, codes, syms, eof);
      SplitCut(bits, pos, c, Flatten(codes[1..]) + eof);
      if |bits| - pos < |c| {
        DecodePathCut(root, root, bits, pos, acc, c, syms[0]);
      } else {
        DecodePath(root, root, bits, pos, acc, c, syms[0]);
        DecodeMessageCut(root, codes[1..], syms[1..], eof, bits, pos + |c|, acc + LowBits(syms[0], BITS_PER_WORD + 1));
      }
    }
  }

  /** The node reached from `n` by following `p`; null once the walk falls off the tree. */
  function Walk(n: HuffNode, p: seq<Bit>): HuffNode
    decreases |p|
  {
    if p == [] || n.Null? then n else Walk(Child(n, p[0]), p[1..])
  }

  /** Every node reached along `p` from `n`, the last included, exists and is valued 0. */
  predicate ZeroWalk(n: HuffNode, p: seq<Bit>)
    decreases |p|
  {
    p == [] || (n.Node? && Child(n, p[0]).Node? && Child(n, p[0]).value == 0 && ZeroWalk(Child(n, p[0]), p[1..]))
  }

  /** A leaf valued 0 is taken for an internal node: reaching it emits nothing and does not
      return to the root, and the next bit steps to a null child, which fails. */
  lemma {:induction false} ZeroLeafDeadEnd(root: HuffNode, current: HuffNode, bits: seq<Bit>, pos: nat,
                                           acc: seq<Bit>, p: seq<Bit>)
    requires ZeroWalk(current, p) && Walk(current, p).Node?
    requires Walk(current, p).left.Null? && Walk(current, p).right.Null?
    requires pos <= |bits| && p <= bits[pos..] && pos + |p| < |bits|
    ensures Decoding(root, current, bits, pos, acc) == Decoded(acc, pos + |p| + 1, false)
    decreases |p|
  {
    if p != [] {
      assert bits[pos] == bits[pos..][0] == p[0];
      SplitAt(bits, pos, [p[0]], p[1..]);
      ZeroLeafDeadEnd(root, Child(current, p[0]), bits, pos + 1, acc, p[1..]);
    }
  }

  /** The 32 bits of the magic number 0xface8201. */
  function MagicBits(): (m: seq<Bit>)
    ensures |m| == 32
  {
    ToBits(0xface8201, 32)
  }

  lemma {:induction false} MagicBitsAccepted(bits: seq<Bit>)
    requires MagicBits() <= bits
    ensures ReadBitsAt(bits, 0, BITS_PER_INT) == HUFF_TREE
  {
    Pow2Values();
    LeadingField(bits, 0xface8201, 32);
    MagicWord(bits, 0);
  }

  /** A stream that starts with the n-bit writing of `v` holds `v` in its first n bits. */
  lemma {:induction false} LeadingField(bits: seq<Bit>, v: nat, n: nat)
    requires v < Pow2(n) && ToBits(v, n) <= bits
    ensures n <= |bits| && ValueAt(bits, 0, n) == v
  {
    var s := ToBits(v, n);
    ValueOfToBits(v, n);
    assert bits[0..n] == s[0..n];
    ValueAtFrame(bits, 0, s, 0, n);
  }

  /** A file that starts with the magic number and a header that parses is decoded with the
      parsed tree from the end of the header, the walk starting at the root. */
  lemma {:induction false} AcceptedHeader(bits: seq<Bit>, p: Parsed)
    requires MagicBits() <= bits && ReadTree(bits, 32) == Ok(p)
    ensures Decompression(bits, 0) == Decoding(p.root, p.root, bits, p.next, [])
  {
    MagicBitsAccepted(bits);
  }

  /** How a file laid out as `a + (b + c)` is seen from the start of `b` and of `c`; kept apart
      so the end-to-end lemmas do not prove these sequence facts in their larger context. */
  lemma {:induction false} Layout(a: seq<Bit>, b: seq<Bit>, c: seq<Bit>)
    ensures a <= a + (b + c)
    ensures (a + (b + c))[|a|..] == b + c && b <= b + c
    ensures (a + (b + c))[|a| + |b|..] == c
  {
  }

  /** A file made of the magic number, the header of an encodable tree and a tail is decoded
      with that tree from the start of the tail. */
  lemma {:induction false} HeaderAccepted(t: HuffNode, tail: seq<Bit>)
    requires Encodable(t)
    ensures var file := MagicBits() + (HeaderBits(t) + tail);
              32 + |HeaderBits(t)| <= |file| && file[32 + |HeaderBits(t)|..] == tail &&
              Decompression(file, 0) == Decoding(t, t, file, 32 + |HeaderBits(t)|, [])
  {
    var h, magic := HeaderBits(t), MagicBits();
    var file := magic + (h + tail);
    Layout(magic, h, tail);
    assert |magic| == 32 && magic <= file;
    HeaderRoundTrip(t, file, 32);
    var p := Parsed(t, 32 + |h|);
    AcceptedHeader(file, p);
  }

  /** End to end: a file made of the magic number, the header of an encodable tree, the codes
      of some ordinary symbols in that tree and the PSEUDO_EOF code decompresses to the
      symbols' 9-bit words, whatever bits follow. */
  lemma {:induction false} DecompressRoundTrip(t: HuffNode, codes: seq<seq<Bit>>, syms: seq<int>,
                                               eof: seq<Bit>, rest: seq<Bit>)
    requires Encodable(t) && CodesFor(t, codes, syms) && Leads(t, eof, PSEUDO_EOF)
    ensures var file := MagicBits() + (HeaderBits(t) + (Flatten(codes) + eof + rest));
              Decompression(file, 0) ==
                Decoded(Emitted(syms), 32 + |HeaderBits(t)| + |Flatten(codes)| + |eof|, true)
  {
    var m := Flatten(codes) + eof;
    var file := MagicBits() + (HeaderBits(t) + (m + rest));
    HeaderAccepted(t, m + rest);
    assert m <= m + rest;
    DecodeMessage(t, codes, syms, eof, file, 32 + |HeaderBits(t)|, []);
  }

  /** Corruption detection end to end: such a file cut anywhere after its header and before
      the end of its PSEUDO_EOF code fails to decompress. */
  lemma {:induction false} DecompressCutStream(t: HuffNode, codes: seq<seq<Bit>>, syms: seq<int>,
                                               eof: seq<Bit>, k: nat)
    requires Encodable(t) && CodesFor(t, codes, syms) && Leads(t, eof, PSEUDO_EOF)
    requires k < |Flatten(codes) + eof|
    ensures !Decompression(MagicBits() + (HeaderBits(t) + (Flatten(codes) + eof)[..k]), 0).ok
  {
    var m := Flatten(codes) + eof;
    var file := MagicBits() + (HeaderBits(t) + m[..k]);
    HeaderAccepted(t, m[..k]);
    assert m[..k] <= m;
    DecodeMessageCut(t, codes, syms, eof, file, 32 + |HeaderBits(t)|, []);
  }

  /** A header cut inside its last leaf is not detected. Take the file for one byte `s`
      under the tree (PSEUDO_EOF, s), which decompresses to `s`. Cut it 2 bits into the
      header's last leaf. The 9-bit read of that leaf then comes back -1, and the leaf is
      built with value -1 from its 1 bit alone. The next bit is the leaf's first value bit,
      a 0, and it reaches PSEUDO_EOF: the cut file is accepted and yields nothing. */
  lemma {:induction false} CutHeaderAccepted(s: int)
    requires 0 < s < 256
    ensures var t := Node(0, 0, Node(PSEUDO_EOF, 0, Null, Null), Node(s, 0, Null, Null));
            Encodable(t) &&
            var file := MagicBits() + (HeaderBits(t) + [1, 0]);
            var cut := MagicBits() + ([0] + (HeaderBits(t.left) + [1, 0]));
            cut < file &&
            Decompression(file, 0) == Decoded(LowBits(s, BITS_PER_WORD + 1), |file|, true) &&
            Decompression(cut, 0) == Decoded([], |cut|, true)
  {
    var e, a := Node(PSEUDO_EOF, 0, Null, Null), Node(s, 0, Null, Null);
    var t := Node(0, 0, e, a);
    Pow2Values();
    assert Encodable(e) && Encodable(a) && Encodable(t);
    SingleSymbolFile(t, s);
    CutIsPrefix(t, s);
    CutFileAccepted(e);
  }

  lemma {:induction false} SingleSymbolFile(t: HuffNode, s: int)
    requires Encodable(t) && !IsLeaf(t) && t.left == Node(PSEUDO_EOF, 0, Null, Null)
    requires t.right == Node(s, 0, Null, Null) && s != 0 && s != PSEUDO_EOF
    ensures var file := MagicBits() + (HeaderBits(t) + [1, 0]);
            Decompression(file, 0) == Decoded(LowBits(s, BITS_PER_WORD + 1), |file|, true)
  {
    assert Leads(t, [1], s) && Leads(t, [0], PSEUDO_EOF);
    assert CodesFor(t, [[1]], [s]);
    assert Flatten([[1]]) + [0] + [] == [1, 0] by {
      assert Flatten([[1]]) == [1] + Flatten([]);
    }
    DecompressRoundTrip(t, [[1]], [s], [0], []);
    assert Emitted([s]) == LowBits(s, BITS_PER_WORD + 1) + Emitted([]);
  }

  lemma {:induction false} CutIsPrefix(t: HuffNode, s: int)
    requires Encodable(t) && !IsLeaf(t) && IsLeaf(t.left)
    requires t.right == Node(s, 0, Null, Null) && 0 < s < Pow2(8)
    ensures MagicBits() + ([0] + (HeaderBits(t.left) + [1, 0])) < MagicBits() + (HeaderBits(t) + [1, 0])
  {
    LeadingZero(s, 9);
    var hs := ToBits(s, 9);
    assert HeaderBits(t.right) == [1] + hs;
    assert HeaderBits(t) == [0] + HeaderBits(t.left) + ([1] + hs);
    StrictPrefix(MagicBits(), HeaderBits(t.left), hs);
  }

  /** Cutting `[1] + x` down to its first bit, where `x` starts with 0. */
  lemma {:induction false} StrictPrefix(m: seq<Bit>, h: seq<Bit>, x: seq<Bit>)
    requires |x| > 0 && x[0] == 0
    ensures m + ([0] + (h + [1, 0])) < m + ([0] + h + ([1] + x) + [1, 0])
  {
    var a := m + [0] + h;
    assert m + ([0] + (h + [1, 0])) == a + [1, 0];
    assert m + ([0] + h + ([1] + x) + [1, 0]) == a + ([1] + x) + [1, 0];
    var y := a + ([1] + x) + [1, 0];
    assert y[..|a| + 2] == a + [1, 0];
  }

  lemma {:induction false} CutFileAccepted(e: HuffNode)
    requires e == Node(PSEUDO_EOF, 0, Null, Null) && Encodable(e)
    ensures var cut := MagicBits() + ([0] + (HeaderBits(e) + [1, 0]));
            Decompression(cut, 0) == Decoded([], |cut|, true)
  {
    var he := HeaderBits(e);
    var cut := MagicBits() + ([0] + (he + [1, 0]));
    Layout(MagicBits(), [0], he + [1, 0]);
    CutHeaderParse(e, cut, 32);
    var cutTree := Node(0, 0, e, Node(-1, 0, Null, Null));
    AcceptedHeader(cut, Parsed(cutTree, 44));
    assert cut[44] == 0;
  }

  /** The parse of a 0 bit, the encoding of a leaf and then the bits 1, 0: a node whose right
      child is a leaf of value -1 built from that 1 bit alone. */
  lemma {:induction false} CutHeaderParse(e: HuffNode, bits: seq<Bit>, pos: nat)
    requires Encodable(e) && IsLeaf(e)
    requires pos <= |bits| && bits[pos..] == [0] + (HeaderBits(e) + [1, 0])
    ensures |bits| == pos + 13 && bits[pos + 12] == 0
    ensures ReadTree(bits, pos) == Ok(Parsed(Node(0, 0, e, Node(-1, 0, Null, Null)), pos + 12))
  {
    var he := HeaderBits(e);
    assert |he| == 10;
    assert bits[pos] == bits[pos..][0] == 0;
    assert bits[pos + 1..] == bits[pos..][1..] == he + [1, 0];
    assert bits[pos + 11] == bits[pos..][11] == 1;
    assert bits[pos + 12] == bits[pos..][12] == 0;
    HeaderRoundTrip(e, bits, pos + 1);
    TruncatedLeaf(bits, pos + 11);
    InternalStep(bits, pos, Parsed(e, pos + 11), Parsed(Node(-1, 0, Null, Null), pos + 12));
  }
}
