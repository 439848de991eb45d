// Bit strings: numbers written least significant bit first, and byte strings as the bits they hold.
module BitStream {
  import opened BitOps

  type Byte = x: nat | x < 256
  type Bits = seq<bool>

  /** The lowest n bits of v, the least significant one first. */
  function ToBits(v: nat, n: nat): (b: Bits)
    ensures |b| == n
  {
    if n == 0 then [] else [v % 2 == 1] + ToBits(v / 2, n - 1)
  }

  function FromBits(b: Bits): nat {
    if |b| == 0 then 0 else (if b[0] then 1 else 0) + 2 * FromBits(b[1..])
  }

  /** Truncation to eight bits, also of a negative int, and to 32. */
  function Uchar(v: int): Byte {
    v % 256
  }

  function U32(x: nat): nat {
    x % 0x1_0000_0000
  }

  function BytesBits(s: seq<Byte>): (b: Bits)
    ensures |b| == 8 * |s|
  {
    if |s| == 0 then [] else ToBits(s[0], 8) + BytesBits(s[1..])
  }

  function Zeros(n: nat): Bits {
    seq(n, _ => false)
  }

  lemma {:induction false} FromToBits(v: nat, n: nat)
    requires v < Pow2(n)
    ensures FromBits(ToBits(v, n)) == v
  {
    if n > 0 {
      FromToBits(v / 2, n - 1);
      assert ToBits(v, n)[1..] == ToBits(v / 2, n - 1);
    }
  }

  lemma {:induction false} ToFromBits(b: Bits)
    ensures ToBits(FromBits(b), |b|) == b
  {
    if |b| > 0 {
      ToFromBits(b[1..]);
      var v := FromBits(b);
      assert v % 2 == (if b[0] then 1 else 0) && v / 2 == FromBits(b[1..]);
      assert [b[0]] + b[1..] == b;
    }
  }

  lemma {:induction false} FromBitsBound(b: Bits)
    ensures FromBits(b) < Pow2(|b|)
  {
    if |b| > 0 {
      FromBitsBound(b[1..]);
    }
  }

  lemma {:induction false} FromBitsConcat(a: Bits, b: Bits)
    ensures FromBits(a + b) == FromBits(a) + Pow2(|a|) * FromBits(b)
  {
    if |a| == 0 {
      assert a + b == b;
    } else {
      FromBitsConcat(a[1..], b);
      assert (a + b)[1..] == a[1..] + b;
      MulAssoc3(2, Pow2(|a| - 1), FromBits(b));
    }
  }

  lemma {:induction false} FromZeros(n: nat)
    ensures FromBits(Zeros(n)) == 0
  {
    if n > 0 {
      assert Zeros(n)[1..] == Zeros(n - 1);
      FromZeros(n - 1);
    }
  }

  /** v & ((1 << n) - 1) and v >> n. */
  function Low(v: nat, n: nat): (r: nat)
    ensures r < Pow2(n)
  {
    v % Pow2(n)
  }

  function High(v: nat, n: nat): (r: nat)
    ensures r <= v
  {
    DivBound(v, Pow2(n));
    v / Pow2(n)
  }

  lemma LowHigh(v: nat, n: nat)
    ensures v == Low(v, n) + Pow2(n) * High(v, n)
  {
    DivMod(v, Pow2(n));
  }

  lemma LowHighUnique(v: nat, n: nat, lo: nat, hi: nat)
    requires lo < Pow2(n) && v == lo + Pow2(n) * hi
    ensures Low(v, n) == lo && High(v, n) == hi
  {
    ModUnique(v, Pow2(n), hi, lo);
  }

  lemma HighBound(v: nat, m: nat, n: nat)
    requires v < Pow2(m + n)
    ensures High(v, m) < Pow2(n)
  {
    hide Pow2, High;
    Pow2Add(m, n);
    LowHigh(v, m);
    var p, q := Pow2(m), High(v, m);
    assert q * p < Pow2(n) * p;
    MulCancel(q, Pow2(n), p);
  }

  /** A number is its low m bits followed by the rest. */
  lemma SplitBits(v: nat, m: nat, n: nat)
    requires v < Pow2(m + n)
    ensures ToBits(v, m + n) == ToBits(Low(v, m), m) + ToBits(High(v, m), n)
    ensures High(v, m) < Pow2(n)
  {
    hide ToBits, Pow2, Low, High;
    HighBound(v, m, n);
    LowHigh(v, m);
    JoinBits(Low(v, m), High(v, m), m, n);
  }

  lemma JoinBits(lo: nat, hi: nat, m: nat, n: nat)
    requires lo < Pow2(m) && hi < Pow2(n)
    ensures ToBits(lo + Pow2(m) * hi, m + n) == ToBits(lo, m) + ToBits(hi, n)
  {
    hide ToBits, FromBits, Pow2;
    var b := ToBits(lo, m) + ToBits(hi, n);
    FromToBits(lo, m);
    FromToBits(hi, n);
    FromBitsConcat(ToBits(lo, m), ToBits(hi, n));
    ToFromBits(b);
  }

  lemma {:induction false} BytesBitsConcat(s: seq<Byte>, t: seq<Byte>)
    ensures BytesBits(s + t) == BytesBits(s) + BytesBits(t)
  {
    if |s| == 0 {
      assert s + t == t;
    } else {
      BytesBitsConcat(s[1..], t);
      assert (s + t)[1..] == s[1..] + t;
      assert (s + t)[0] == s[0];
      hide ToBits;
      assert BytesBits(s + t) == ToBits(s[0], 8) + BytesBits(s[1..] + t);
    }
  }

  lemma BytesBitsOne(x: Byte)
    ensures BytesBits([x]) == ToBits(x, 8)
  {
    hide ToBits;
    assert [x][1..] == [];
    assert BytesBits([]) == [];
  }

  lemma ByteSplits(s: seq<Byte>)
    requires |s| > 0
    ensures |BytesBits(s)| >= 8 && BytesBits(s)[..8] == ToBits(s[0], 8) && BytesBits(s)[8..] == BytesBits(s[1..])
    ensures s[0] < Pow2(8)
  {
    assert Pow2(8) == 256;
    hide ToBits;
    var b, c := ToBits(s[0], 8), BytesBits(s[1..]);
    assert BytesBits(s) == b + c;
  }
}
