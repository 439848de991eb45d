// A growable array of bits, most significant bit first (zxing-core/src/BitArray.h:29-191).
module BitArrays {
  import opened BitOps
  import opened BitStream
  import opened BitOutput
  import opened CanonicalCode

  /** The number written as these bits, the most significant one first. */
  function FromMsb(b: Bits): nat {
    if |b| == 0 then 0 else 2 * FromMsb(b[..|b| - 1]) + (if b[|b| - 1] then 1 else 0)
  }

  lemma {:induction false} MsbSnoc(c: nat, n: nat)
    ensures MsbBits(c, n + 1) == MsbBits(c / 2, n) + [c % 2 == 1]
    decreases n
  {
    hide BitSet;
    if n == 0 {
      BitZero(c);
      assert MsbBits(c, 1) == [BitSet(c, 0)] + MsbBits(c, 0);
    } else {
      MsbSnoc(c, n - 1);
      BitHalf(c, n);
      assert MsbBits(c, n + 1) == [BitSet(c, n)] + MsbBits(c, n);
      assert MsbBits(c / 2, n) == [BitSet(c / 2, n - 1)] + MsbBits(c / 2, n - 1);
    }
  }

  lemma BitZero(c: nat)
    ensures BitSet(c, 0) == (c % 2 == 1)
  {
    Pow2Zero();
    assert c / 1 == c;
  }

  /** Writing and reading back a number of n bits. */
  lemma {:induction false} FromMsbBits(c: nat, n: nat)
    requires c < Pow2(n)
    ensures FromMsb(MsbBits(c, n)) == c
    decreases n
  {
    if n > 0 {
      FromMsbBits(c / 2, n - 1);
      MsbSnoc(c, n - 1);
      var b := MsbBits(c, n);
      hide MsbBits;
      assert b[..n - 1] == MsbBits(c / 2, n - 1);
    }
  }

  lemma {:induction false} MsbBitsFrom(b: Bits)
    ensures FromMsb(b) < Pow2(|b|) && MsbBits(FromMsb(b), |b|) == b
    decreases |b|
  {
    if |b| > 0 {
      var n := |b| - 1;
      MsbBitsFrom(b[..n]);
      var c := FromMsb(b);
      assert c / 2 == FromMsb(b[..n]) && (c % 2 == 1) == b[n];
      MsbSnoc(c, n);
      assert b == b[..n] + [b[n]];
    }
  }

  class BitArray {
    var bits: Bits

    constructor ()
      ensures bits == []
    {
      bits := [];
    }

    /** appendBits: the lowest bits of the value, the most significant one first. */
    method AppendBits(value: nat, numBits: nat)
      modifies this
      ensures bits == old(bits) + MsbBits(value, numBits)
    {
      var n := numBits;
      assert MsbBits(value, 0) == [];
      while n > 0
        invariant 0 <= n <= numBits
        invariant bits + MsbBits(value, n) == old(bits) + MsbBits(value, numBits)
        decreases n
      {
        assert bits + MsbBits(value, n) == (bits + [BitSet(value, n - 1)]) + MsbBits(value, n - 1);
        bits := bits + [BitSet(value, n - 1)];
        n := n - 1;
      }
    }
  }

  /** ToInt: `count` bits from `pos` on. */
  method ToInt(b: Bits, pos: nat, count: nat) returns (res: nat)
    requires pos + count <= |b|
    ensures res == FromMsb(b[pos..pos + count])
  {
    res := 0;
    var i := 0;
    assert b[pos..pos] == [];
    while i < count
      invariant i <= count && res == FromMsb(b[pos..pos + i])
    {
      var read := b[pos..pos + i + 1];
      assert read[..i] == b[pos..pos + i] && read[i] == b[pos + i];
      res := res * 2 + (if b[pos + i] then 1 else 0);
      i := i + 1;
    }
  }
}
