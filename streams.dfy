/** The two bit-stream collaborators of the Huffman processor, seen from outside: an input
    stream is a fixed bit string with a cursor, an output stream an append-only bit string.
    Buffering, flushing and padding of the final byte are not modelled. */
module BitStreams {
  import opened Bits

  class BitInputStream {
    /** Every bit the stream will ever deliver. */
    const bits: seq<Bit>
    /** How many of them have been consumed. */
    var pos: nat

    ghost predicate Valid()
      reads this
    {
      pos <= |bits|
    }

    constructor (bits: seq<Bit>)
      ensures Valid() && this.bits == bits && pos == 0
    {
      this.bits := bits;
      pos := 0;
    }

    /** Returns the next n bits as a number, or -1 when fewer than n remain; in that case
        nothing is consumed (the bits stay buffered). */
    method ReadBits(n: nat) returns (r: int)
      requires Valid() && 0 < n <= 32
      modifies this
      ensures Valid()
      ensures r == ReadBitsAt(bits, old(pos), n)
      ensures pos == if old(pos) + n <= |bits| then old(pos) + n else old(pos)
    {
      r := ReadBitsAt(bits, pos, n);
      if pos + n <= |bits| {
        pos := pos + n;
      }
    }
  }

  class BitOutputStream {
    /** Every bit written so far. */
    var written: seq<Bit>

    constructor ()
      ensures written == []
    {
      written := [];
    }

    /** Appends the low n bits of `value`. */
    method WriteBits(n: nat, value: int)
      requires 0 < n <= 32
      modifies this
      ensures written == old(written) + LowBits(value, n)
    {
      written := written + LowBits(value, n);
    }
  }
}
