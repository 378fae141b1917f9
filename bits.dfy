/** Bits as the bit streams of the Huffman processor see them: a bit string is read
    most significant bit first as a number, and a number is written as its low-order bits. */
module Bits {

  /** One bit of a stream. */
  type Bit = b: int | 0 <= b <= 1

  /** 2^32, the number of distinct values of a Java `int`. */
  const TWO_TO_32: int := 0x1_0000_0000

  function Pow2(n: nat): (p: nat)
    ensures p >= 1
  {
    if n == 0 then 1 else 2 * Pow2(n - 1)
  }

  /** The unsigned number whose binary digits, most significant first, are the `n` bits of
      `bits` that start at `pos`. */
  function ValueAt(bits: seq<Bit>, pos: nat, n: nat): (v: nat)
    requires pos + n <= |bits|
    ensures v < Pow2(n)
  {
    if n == 0 then 0 else 2 * ValueAt(bits, pos, n - 1) + bits[pos + n - 1]
  }

  /** The `n` low-order bits of `v`, most significant first. */
  function ToBits(v: nat, n: nat): (s: seq<Bit>)
    ensures |s| == n
  {
    if n == 0 then [] else ToBits(v / 2, n - 1) + [v % 2]
  }

  /** What a bit sink writes for "the low n bits of the int v": v is masked to n bits,
      which for a negative v is its two's complement (Dafny's `%` is never negative). */
  function LowBits(v: int, n: nat): (s: seq<Bit>)
    ensures |s| == n
  {
    ToBits(v % Pow2(n), n)
  }

  /** Reinterprets a 32-bit pattern as a signed Java `int`. */
  function JavaInt(u: nat): (i: int)
    requires u < TWO_TO_32
    ensures -TWO_TO_32 / 2 <= i < TWO_TO_32 / 2
    ensures i % TWO_TO_32 == u
  {
    if u < TWO_TO_32 / 2 then u else u - TWO_TO_32
  }

  /** `readBits(n)` at cursor `pos`: the next n bits as a Java int, or the sentinel -1 when
      fewer than n bits remain. */
  function ReadBitsAt(bits: seq<Bit>, pos: nat, n: nat): (r: int)
    requires 0 < n <= 32
    ensures n < 32 ==> (r == -1 <==> pos + n > |bits|)
    ensures n < 32 && r != -1 ==> 0 <= r < Pow2(n)
  {
    if pos + n > |bits| then -1
    else
      Pow2Values();
      Pow2Monotone(n, 32);
      assert n < 32 ==> Pow2(n) <= Pow2(31) by {
        if n < 32 { Pow2Monotone(n, 31); }
      }
      JavaInt(ValueAt(bits, pos, n))
  }

  lemma {:induction false} Pow2Monotone(m: nat, n: nat)
    requires m <= n
    ensures Pow2(m) <= Pow2(n)
    decreases n
  {
    if m < n {
      Pow2Monotone(m, n - 1);
    }
  }

  /** The powers of two the stream widths of the format need. */
  lemma {:induction false} Pow2Values()
    ensures Pow2(8) == 256 && Pow2(9) == 512
    ensures Pow2(31) == TWO_TO_32 / 2 && Pow2(32) == TWO_TO_32
  {
    assert Pow2(16) == 65536 by { Pow2Add(8, 8); }
    Pow2Add(16, 15);
    Pow2Add(16, 16);
  }

  lemma {:induction false} Pow2Add(a: nat, b: nat)
    ensures Pow2(a + b) == Pow2(a) * Pow2(b)
    decreases a
  {
    if a > 0 {
      Pow2Add(a - 1, b);
    }
  }

  /** Writing an n-bit number as n bits and reading them back gives the number. */
  lemma {:induction false} ValueOfToBits(v: nat, n: nat)
    requires v < Pow2(n)
    ensures ValueAt(ToBits(v, n), 0, n) == v
  {
    if n > 0 {
      var s := ToBits(v / 2, n - 1);
      assert v / 2 < Pow2(n - 1);
      ValueOfToBits(v / 2, n - 1);
      ValueAtAppend(s, [v % 2], 0, n - 1);
    }
  }

  /** A number below 2^(n-1) written in n bits starts with a 0 bit. */
  lemma {:induction false} LeadingZero(v: nat, n: nat)
    requires 0 < n && v < Pow2(n - 1)
    ensures ToBits(v, n)[0] == 0
  {
    if n > 1 {
      LeadingZero(v / 2, n - 1);
    }
  }

  /** Bits appended after a field do not change its value. */
  lemma {:induction false} ValueAtAppend(s: seq<Bit>, t: seq<Bit>, pos: nat, n: nat)
    requires pos + n <= |s|
    ensures ValueAt(s + t, pos, n) == ValueAt(s, pos, n)
  {
    if n > 0 {
      ValueAtAppend(s, t, pos, n - 1);
    }
  }

  /** A field's value depends only on the field's bits. */
  lemma {:induction false} ValueAtFrame(a: seq<Bit>, pa: nat, b: seq<Bit>, pb: nat, n: nat)
    requires pa + n <= |a| && pb + n <= |b| && a[pa..pa + n] == b[pb..pb + n]
    ensures ValueAt(a, pa, n) == ValueAt(b, pb, n)
  {
    if n > 0 {
      assert a[pa + n - 1] == a[pa..pa + n][n - 1] == b[pb..pb + n][n - 1] == b[pb + n - 1];
      assert a[pa..pa + n - 1] == a[pa..pa + n][..n - 1] == b[pb..pb + n][..n - 1] == b[pb..pb + n - 1];
      ValueAtFrame(a, pa, b, pb, n - 1);
    }
  }

  /** The number an n-bit field holds, written back as n bits, is the field. */
  lemma {:induction false} ToBitsOfValueAt(bits: seq<Bit>, pos: nat, n: nat)
    requires pos + n <= |bits|
    ensures ToBits(ValueAt(bits, pos, n), n) == bits[pos..pos + n]
  {
    if n > 0 {
      var v := ValueAt(bits, pos, n);
      assert v / 2 == ValueAt(bits, pos, n - 1) && v % 2 == bits[pos + n - 1];
      ToBitsOfValueAt(bits, pos, n - 1);
      assert bits[pos..pos + n] == bits[pos..pos + n - 1] + [bits[pos + n - 1]];
    }
  }

  /** What `readBits(n)` returns, written back with `writeBits(n, _)`, is the bits it read. */
  lemma {:induction false} ReadThenWrite(bits: seq<Bit>, pos: nat, n: nat)
    requires 0 < n <= 32 && pos + n <= |bits|
    ensures LowBits(ReadBitsAt(bits, pos, n), n) == bits[pos..pos + n]
  {
    var u := ValueAt(bits, pos, n);
    var r := ReadBitsAt(bits, pos, n);
    Pow2Values();
    if n < 32 {
      Pow2Monotone(n, 31);
      assert r == u;
      ModSmall(u, Pow2(n));
    } else {
      assert r % TWO_TO_32 == u;
    }
    assert LowBits(r, n) == ToBits(u, n);
    ToBitsOfValueAt(bits, pos, n);
  }

  /** A number already below the modulus is its own remainder; kept apart so that the
      nonlinear `%` stays out of the lemmas that use it. */
  lemma {:induction false} ModSmall(u: int, m: int)
    requires 0 <= u < m
    ensures u % m == u
  {
  }
}
