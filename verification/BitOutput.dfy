// The bit output of the compressor (stb/stb_image_write.h:839-888): the locals that its macros update.
module BitOutput {
  import opened Sequences
  import opened BitOps
  import opened BitStream

  /** The lowest n bits of c, the most significant one first: the order of Huffman codes. */
  function MsbBits(c: nat, n: nat): (b: Bits)
    ensures |b| == n
  {
    if n == 0 then [] else [BitSet(c, n - 1)] + MsbBits(c, n - 1)
  }

  /** stbiw__zlib_bitrev. */
  method ZlibBitrev(code: nat, codebits: nat) returns (res: nat)
    ensures res < Pow2(codebits) && ToBits(res, codebits) == MsbBits(code, codebits)
  {
    res := 0;
    var c, n := code, 0;
    HighZero(code);
    while n < codebits
      invariant n <= codebits && c == High(code, n)
      invariant res < Pow2(n) && ToBits(res, n) == MsbBits(code, n)
    {
      PrependBit(res, c % 2, n);
      HighNext(code, n);
      res := res * 2 + c % 2;
      c := c / 2;
      n := n + 1;
    }
  }

  lemma HighZero(c: nat)
    ensures High(c, 0) == c
  {
  }

  lemma PrependBit(res: nat, bit: nat, n: nat)
    requires res < Pow2(n) && bit < 2
    ensures res * 2 + bit < Pow2(n + 1)
    ensures ToBits(res * 2 + bit, n + 1) == [bit == 1] + ToBits(res, n)
  {
    var v := res * 2 + bit;
    assert v % 2 == bit && v / 2 == res;
  }

  lemma HighNext(c: nat, n: nat)
    ensures High(c, n + 1) == High(c, n) / 2
    ensures BitSet(c, n) == (High(c, n) % 2 == 1)
  {
    hide Pow2, Low;
    LowHigh(c, n);
    Pow2Next(n);
    HalveHigh(Low(c, n), Pow2(n), High(c, n));
    LowHighUnique(c, n + 1, Low(c, n) + Pow2(n) * (High(c, n) % 2), High(c, n) / 2);
  }

  lemma HalveHigh(lo: nat, p: nat, h: nat)
    requires lo < p
    ensures lo + p * h == (lo + p * (h % 2)) + 2 * p * (h / 2)
    ensures 0 <= lo + p * (h % 2) < 2 * p
  {
    var q := h / 2;
    assert h == 2 * q + h % 2;
    assert p * h == 2 * (p * q) + p * (h % 2);
    MulAssoc3(2, p, q);
  }

  class BitWriter {
    var out: seq<Byte>
    var bitbuf: nat
    var bitcount: nat

    ghost predicate Valid()
      reads this
    {
      bitcount < 8 && bitbuf < Pow2(bitcount)
    }

    /** Everything written so far. */
    ghost function Emitted(): Bits
      reads this
    {
      BytesBits(out) + ToBits(bitbuf, bitcount)
    }

    constructor ()
      ensures Valid() && out == [] && Emitted() == []
    {
      out, bitbuf, bitcount := [], 0, 0;
    }

    /** stbiw__zlib_flushf: whole bytes leave the buffer. */
    method Flush()
      requires bitbuf < Pow2(bitcount)
      modifies this
      ensures Valid() && Emitted() == old(Emitted()) && old(out) <= out
    {
      hide Pow2, ToBits, BytesBits, Low, High;
      while bitcount >= 8
        invariant bitbuf < Pow2(bitcount) && old(out) <= out
        invariant Emitted() == old(Emitted())
        decreases bitcount
      {
        var byte: Byte := LowByte(bitbuf);
        OneByteLess(out, bitbuf, bitcount);
        out := out + [byte];
        bitbuf := High(bitbuf, 8);
        bitcount := bitcount - 8;
      }
    }

    /** stbiw__zlib_add: the lowest bits of the code, the least significant one first. */
    method Add(code: nat, codebits: nat)
      requires Valid() && code < Pow2(codebits) && codebits <= 24
      modifies this
      ensures Valid() && Emitted() == old(Emitted()) + ToBits(code, codebits) && old(out) <= out
    {
      hide Pow2, ToBits, BytesBits, Or;
      OrDisjoint(bitbuf, code, bitcount);
      AppendCode(bitbuf, bitcount, code, codebits);
      Reassociate(BytesBits(out), ToBits(bitbuf, bitcount), ToBits(code, codebits));
      bitbuf := Or(bitbuf, code * Pow2(bitcount));
      bitcount := bitcount + codebits;
      Flush();
    }

    /** stbiw__zlib_huffa: a Huffman code, the most significant bit first. */
    method AddCode(code: nat, codebits: nat)
      requires Valid() && codebits <= 24
      modifies this
      ensures Valid() && Emitted() == old(Emitted()) + MsbBits(code, codebits) && old(out) <= out
    {
      var reversed := ZlibBitrev(code, codebits);
      Add(reversed, codebits);
    }
  }

  /** STBIW_UCHAR. */
  function LowByte(v: nat): Byte {
    v % 256
  }

  lemma LowByteIs(v: nat)
    ensures LowByte(v) == Low(v, 8)
  {
    assert Pow2(8) == 256;
  }

  lemma OneByteLess(out: seq<Byte>, v: nat, n: nat)
    requires n >= 8 && v < Pow2(n)
    ensures High(v, 8) < Pow2(n - 8)
    ensures BytesBits(out + [LowByte(v)]) + ToBits(High(v, 8), n - 8) == BytesBits(out) + ToBits(v, n)
  {
    hide Pow2, ToBits, BytesBits, Low, High;
    LowByteIs(v);
    SplitBits(v, 8, n - 8);
    BytesBitsConcat(out, [LowByte(v)]);
    BytesBitsOne(LowByte(v));
    Reassociate(BytesBits(out), ToBits(LowByte(v), 8), ToBits(High(v, 8), n - 8));
  }

  lemma AppendCode(v: nat, n: nat, code: nat, codebits: nat)
    requires v < Pow2(n) && code < Pow2(codebits)
    ensures v + code * Pow2(n) < Pow2(n + codebits)
    ensures ToBits(v + code * Pow2(n), n + codebits) == ToBits(v, n) + ToBits(code, codebits)
  {
    hide Pow2, ToBits;
    Pow2Add(n, codebits);
    var p, q := Pow2(n), Pow2(codebits);
    assert code * p + p <= p * q by {
      MulMonotone(code + 1, q, p);
    }
    JoinBits(v, code, n, codebits);
    assert p * code == code * p;
  }
}
