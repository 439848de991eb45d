// Bit reversal by masked swaps (stb/stb_image.h:4105-4120).
module BitReversal {
  import opened BitOps
  import opened BitStream
  import opened BitOutput
  import opened CanonicalCode

  /** The bitwise and of two non-negative integers. */
  function And(a: nat, b: nat): nat
    decreases a + b
  {
    if a == 0 || b == 0 then 0 else (if a % 2 == 1 && b % 2 == 1 then 1 else 0) + 2 * And(a / 2, b / 2)
  }

  lemma {:induction false} AndBit(a: nat, b: nat, n: nat)
    ensures BitSet(And(a, b), n) == (BitSet(a, n) && BitSet(b, n))
    decreases n
  {
    if n == 0 {
      AndDigits(a, b);
      Pow2Zero();
      assert a / 1 == a && b / 1 == b && And(a, b) / 1 == And(a, b);
    } else {
      AndDigits(a, b);
      AndBit(a / 2, b / 2, n - 1);
      hide And, BitSet;
      BitHalf(And(a, b), n);
      BitHalf(a, n);
      BitHalf(b, n);
    }
  }

  lemma AndDigits(a: nat, b: nat)
    ensures And(a, b) % 2 == (if a % 2 == 1 && b % 2 == 1 then 1 else 0)
    ensures And(a, b) / 2 == And(a / 2, b / 2)
  {
  }

  lemma {:induction false} OrBit(a: nat, b: nat, n: nat)
    ensures BitSet(Or(a, b), n) == (BitSet(a, n) || BitSet(b, n))
    decreases n
  {
    if n == 0 {
      OrDigits(a, b);
      Pow2Zero();
      assert a / 1 == a && b / 1 == b && Or(a, b) / 1 == Or(a, b);
    } else {
      OrDigits(a, b);
      OrBit(a / 2, b / 2, n - 1);
      hide Or, BitSet;
      BitHalf(Or(a, b), n);
      BitHalf(a, n);
      BitHalf(b, n);
    }
  }

  lemma OrDigits(a: nat, b: nat)
    ensures Or(a, b) % 2 == (if a % 2 == 1 || b % 2 == 1 then 1 else 0)
    ensures Or(a, b) / 2 == Or(a / 2, b / 2)
  {
  }

  lemma {:induction false} AndBound(a: nat, b: nat)
    ensures And(a, b) <= b
    decreases a + b
  {
    if a != 0 && b != 0 {
      AndBound(a / 2, b / 2);
      AndDigits(a, b);
    }
  }

  lemma ShiftedBit(a: nat, k: nat, n: nat)
    ensures BitSet(a * Pow2(k), n) == (n >= k && BitSet(a, n - k))
  {
    hide Pow2, Low, High;
    if n >= k {
      LowHighUnique(a * Pow2(k), k, 0, a);
      BitOfHigh(a * Pow2(k), k, n - k);
    } else {
      BitBelow(a, k, n);
    }
  }

  lemma BitBelow(a: nat, k: nat, n: nat)
    requires n < k
    ensures !BitSet(a * Pow2(k), n)
  {
    hide Pow2, Low, High;
    Pow2Add(n, k - n);
    var p, q := Pow2(n), Pow2(k - n - 1);
    Pow2Next(k - n - 1);
    var v := a * Pow2(k);
    assert v == 0 + p * (2 * (a * q)) by {
      assert Pow2(k) == p * (2 * q);
      MulAssoc3(a, p, 2 * q);
      assert a * p == p * a;
      MulAssoc3(p, a, 2 * q);
      assert a * (2 * q) == 2 * (a * q);
    }
    LowHighUnique(v, n, 0, 2 * (a * q));
    BitIsHigh(v, n);
  }

  lemma BitIsHigh(v: nat, n: nat)
    ensures BitSet(v, n) == (High(v, n) % 2 == 1)
  {
  }

  /** One stage of the reversal: neighbouring groups of k bits change places. */
  function Swap(n: nat, high: nat, low: nat, k: nat): nat {
    Or(High(And(n, high), k), And(n, low) * Pow2(k))
  }

  lemma SwapBit(n: nat, high: nat, low: nat, k: nat, i: nat)
    ensures BitSet(Swap(n, high, low, k), i) ==
            ((BitSet(n, i + k) && BitSet(high, i + k)) || (i >= k && BitSet(n, i - k) && BitSet(low, i - k)))
  {
    hide And, Or, High, Low, Pow2, BitSet;
    OrBit(High(And(n, high), k), And(n, low) * Pow2(k), i);
    BitOfHigh(And(n, high), k, i);
    AndBit(n, high, i + k);
    ShiftedBit(And(n, low), k, i);
    if i >= k {
      AndBit(n, low, i - k);
    }
  }

  /** stbi__bitreverse16. */
  function Bitreverse16(n: nat): nat {
    var n1 := Swap(n, 0xAAAA, 0x5555, 1);
    var n2 := Swap(n1, 0xCCCC, 0x3333, 2);
    var n3 := Swap(n2, 0xF0F0, 0x0F0F, 4);
    Swap(n3, 0xFF00, 0x00FF, 8)
  }

  /** stbi__bit_reverse. */
  function BitReverse(v: nat, bits: nat): nat
    requires bits <= 16
  {
    High(Bitreverse16(v), 16 - bits)
  }

  lemma ClearAbove(a: nat, i: nat)
    requires a < 65536 && i >= 16
    ensures !BitSet(a, i)
  {
    SmallPowers();
    Pow2AtMost(16, i);
    hide Pow2;
    SmallMod(a, Pow2(i));
    DivMod(a, Pow2(i));
    ZeroFactor(Pow2(i), a / Pow2(i));
  }

  lemma ZeroFactor(x: nat, y: int)
    requires x > 0 && x * y == 0
    ensures y == 0
  {
  }

  lemma Mask1(i: nat)
    requires i < 16
    ensures BitSet(0xAAAA, i) == (i % 2 == 1) && BitSet(0x5555, i) == (i % 2 == 0)
  {
    SmallPowers();
    hide Pow2;
  }

  lemma Mask2(i: nat)
    requires i < 16
    ensures BitSet(0xCCCC, i) == (i / 2 % 2 == 1) && BitSet(0x3333, i) == (i / 2 % 2 == 0)
  {
    Mask2High(i);
    Mask2Low(i);
  }

  lemma Mask2High(i: nat)
    requires i < 16
    ensures BitSet(0xCCCC, i) == (i / 2 % 2 == 1)
  {
    SmallPowers();
    hide Pow2;
  }

  lemma Mask2Low(i: nat)
    requires i < 16
    ensures BitSet(0x3333, i) == (i / 2 % 2 == 0)
  {
    SmallPowers();
    hide Pow2;
  }

  lemma Mask4(i: nat)
    requires i < 16
    ensures BitSet(0xF0F0, i) == (i / 4 % 2 == 1) && BitSet(0x0F0F, i) == (i / 4 % 2 == 0)
  {
    SmallPowers();
    hide Pow2;
  }

  lemma Mask8(i: nat)
    requires i < 16
    ensures BitSet(0xFF00, i) == (i / 8 % 2 == 1) && BitSet(0x00FF, i) == (i / 8 % 2 == 0)
  {
    SmallPowers();
    hide Pow2;
  }

  /** Masks that select every other group of k bits. */
  ghost predicate Groups(high: nat, low: nat, k: nat) {
    && k > 0 && high < 65536 && low < 65536
    && (forall i :: 0 <= i < 16 ==> BitSet(high, i) == (i / k % 2 == 1) && BitSet(low, i) == (i / k % 2 == 0))
  }

  function Partner(i: nat, k: nat): nat
    requires k == 1 || k == 2 || k == 4 || k == 8
  {
    if i / k % 2 == 0 then i + k else i - k
  }

  lemma SwapPartner(n: nat, high: nat, low: nat, k: nat, i: nat)
    requires (k == 1 || k == 2 || k == 4 || k == 8) && i < 16 && Groups(high, low, k)
    ensures BitSet(Swap(n, high, low, k), i) == BitSet(n, Partner(i, k))
  {
    hide Swap, BitSet;
    SwapBit(n, high, low, k, i);
    PartnerGroup(i, k);
    if i + k >= 16 {
      ClearAbove(high, i + k);
    }
    hide Partner;
    assert BitSet(high, i + k) == (i / k % 2 == 0);
    assert i >= k ==> BitSet(low, i - k) == (i / k % 2 == 1);
  }

  lemma PartnerGroup(i: nat, k: nat)
    requires (k == 1 || k == 2 || k == 4 || k == 8) && i < 16
    ensures (i + k) / k % 2 == 1 - i / k % 2
    ensures i >= k ==> (i - k) / k % 2 == 1 - i / k % 2
    ensures i + k >= 16 ==> i / k % 2 == 1
    ensures i < k ==> i / k % 2 == 0
  {
    var q := i / k;
    assert i == k * q + i % k;
    ModUnique(i + k, k, q + 1, i % k);
    if i >= k {
      ModUnique(i - k, k, q - 1, i % k);
    }
    hide *;
    if k == 1 {
      assert q == i;
    } else if k == 2 {
      assert i == 2 * q + i % 2;
    } else if k == 4 {
      assert i == 4 * q + i % 4;
    } else {
      assert i == 8 * q + i % 8;
    }
  }

  lemma AllGroups()
    ensures Groups(0xAAAA, 0x5555, 1) && Groups(0xCCCC, 0x3333, 2)
    ensures Groups(0xF0F0, 0x0F0F, 4) && Groups(0xFF00, 0x00FF, 8)
  {
    hide BitSet;
    forall i | 0 <= i < 16
      ensures BitSet(0xAAAA, i) == (i % 2 == 1) && BitSet(0x5555, i) == (i % 2 == 0)
      ensures BitSet(0xCCCC, i) == (i / 2 % 2 == 1) && BitSet(0x3333, i) == (i / 2 % 2 == 0)
      ensures BitSet(0xF0F0, i) == (i / 4 % 2 == 1) && BitSet(0x0F0F, i) == (i / 4 % 2 == 0)
      ensures BitSet(0xFF00, i) == (i / 8 % 2 == 1) && BitSet(0x00FF, i) == (i / 8 % 2 == 0)
    {
      Mask1(i);
      Mask2(i);
      Mask4(i);
      Mask8(i);
    }
  }

  /** The four masked swaps reverse sixteen bits. */
  lemma ReversedBit(n: nat, i: nat)
    requires i < 16
    ensures BitSet(Bitreverse16(n), i) == BitSet(n, 15 - i)
  {
    hide BitSet, Groups, Swap;
    AllGroups();
    var n1 := Swap(n, 0xAAAA, 0x5555, 1);
    var n2 := Swap(n1, 0xCCCC, 0x3333, 2);
    var n3 := Swap(n2, 0xF0F0, 0x0F0F, 4);
    SwapPartner(n3, 0xFF00, 0x00FF, 8, i);
    var i8 := Partner(i, 8);
    SwapPartner(n2, 0xF0F0, 0x0F0F, 4, i8);
    var i4 := Partner(i8, 4);
    SwapPartner(n1, 0xCCCC, 0x3333, 2, i4);
    var i2 := Partner(i4, 2);
    SwapPartner(n, 0xAAAA, 0x5555, 1, i2);
  }

  lemma ReversedBound(n: nat)
    ensures Bitreverse16(n) < Pow2(16)
  {
    hide And, Or, Pow2, High;
    SmallPowers();
    var n3 := Swap(Swap(Swap(n, 0xAAAA, 0x5555, 1), 0xCCCC, 0x3333, 2), 0xF0F0, 0x0F0F, 4);
    AndBound(n3, 0xFF00);
    AndBound(n3, 0x00FF);
    OrBound(High(And(n3, 0xFF00), 8), And(n3, 0x00FF) * 256, 16);
  }

  lemma {:induction false} ToBitsAt(v: nat, n: nat, i: nat)
    requires i < n
    ensures ToBits(v, n)[i] == BitSet(v, i)
    decreases n
  {
    if i == 0 {
      Pow2Zero();
      assert v / 1 == v;
    } else {
      hide BitSet;
      ToBitsAt(v / 2, n - 1, i - 1);
      BitHalf(v, i);
    }
  }

  lemma {:induction false} MsbBitsAt(c: nat, n: nat, i: nat)
    requires i < n
    ensures MsbBits(c, n)[i] == BitSet(c, n - 1 - i)
    decreases n
  {
    if i > 0 {
      MsbBitsAt(c, n - 1, i - 1);
    }
  }

  /** Reversal turns the order of the stream into the order of codes, and back. */
  lemma ReverseBits(v: nat, n: nat)
    requires n <= 16
    ensures MsbBits(BitReverse(v, n), n) == ToBits(v, n)
    ensures ToBits(BitReverse(v, n), n) == MsbBits(v, n)
    ensures BitReverse(v, n) < Pow2(n)
  {
    hide Bitreverse16, BitSet, High, Pow2, ToBits, MsbBits;
    ReversedBound(v);
    HighBound(Bitreverse16(v), 16 - n, n);
    var r := BitReverse(v, n);
    forall i | 0 <= i < n
      ensures MsbBits(r, n)[i] == ToBits(v, n)[i]
      ensures ToBits(r, n)[i] == MsbBits(v, n)[i]
    {
      MsbBitsAt(r, n, i);
      ToBitsAt(r, n, i);
      MsbBitsAt(v, n, i);
      ToBitsAt(v, n, i);
      BitOfHigh(Bitreverse16(v), 16 - n, n - 1 - i);
      BitOfHigh(Bitreverse16(v), 16 - n, i);
      ReversedBit(v, 15 - i);
      ReversedBit(v, 16 - n + i);
    }
  }
}
