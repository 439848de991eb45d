// Shift-and-add multiplication of magnitudes (zxing-core/src/ZXBigInteger.cpp:113-185).
module BigProduct {
  import opened BitOps
  import opened BlockAlgebra
  import opened BlockShift
  import opened BigMagnitude

  lemma {:induction false} PowerAdd(m: nat, n: nat)
    ensures Power(m + n) == Power(m) * Power(n)
    decreases m
  {
    if m > 0 {
      PowerAdd(m - 1, n);
      MulAssoc3(BASE, Power(m - 1), Power(n));
    }
  }

  /** Blocks i up to k of the running total already have their share of the shifted operand. */
  ghost predicate Adding(total: Blocks, operand: Blocks, r: Blocks, i: nat, k: nat, carry: bool) {
    && i <= k <= |r| == |total| && |operand| <= |r| - i
    && r[..i] == total[..i] && r[k..] == total[k..]
    && Summing(total[i..], operand, r[i..], k - i, carry)
  }

  lemma AddingStart(total: Blocks, operand: Blocks, i: nat)
    requires i <= |total| && |operand| <= |total| - i
    ensures Adding(total, operand, total, i, i, false)
  {
    SummingStart(total[i..], operand, total[i..]);
  }

  lemma AddingStep(total: Blocks, operand: Blocks, r: Blocks, i: nat, k: nat, carry: bool, digit: Block, carry': bool)
    requires Adding(total, operand, r, i, k, carry) && k < |r|
    requires SumDigit(r[k], Head(From(operand, k - i)), carry, digit, carry')
    ensures Adding(total, operand, r[k := digit], i, k + 1, carry')
  {
    hide Summing, From, Head, SumDigit;
    assert r[k] == r[k..][0] == total[k..][0] == total[i..][k - i];
    SumDigitIs(r[k], Head(From(operand, k - i)), carry, digit, carry');
    SummingStep(total[i..], operand, r[i..], k - i, carry, digit, carry');
    assert r[i..][k - i := digit] == r[k := digit][i..];
  }

  lemma SumDigitIs(x: Block, y: Block, carry: bool, digit: Block, carry': bool)
    requires SumDigit(x, y, carry, digit, carry')
    ensures var t := x + y + Bit(carry);
      digit == (if t >= BASE then t - BASE else t) && carry' == (t >= BASE)
  {
  }

  /** As soon as the carry is gone, the running total is the exact sum. */
  lemma AddingEnd(total: Blocks, operand: Blocks, r: Blocks, i: nat, k: nat)
    requires Adding(total, operand, r, i, k, false) && k - i >= |operand|
    ensures Value(r) == Value(total) + Power(i) * Value(operand)
  {
    AddingTail(total, operand, r, i, k);
    SumValue(total[i..], operand, false);
    TailValue(total, operand, r, i);
  }

  lemma AddingTail(total: Blocks, operand: Blocks, r: Blocks, i: nat, k: nat)
    requires Adding(total, operand, r, i, k, false) && k - i >= |operand|
    ensures Sum(total[i..], operand, false) == r[i..]
  {
    hide Sum, Summing;
    assert total[i..][k - i..] == r[i..][k - i..] by {
      assert total[i..][k - i..] == total[k..] == r[k..];
    }
    SummedTail(total[i..], operand, r[i..], k - i);
  }

  lemma SummedTail(tail: Blocks, operand: Blocks, s: Blocks, n: nat)
    requires Summing(tail, operand, s, n, false) && |operand| <= n
    requires |s| == |tail| && tail[n..] == s[n..]
    ensures Sum(tail, operand, false) == s
  {
    hide Sum;
    assert From(operand, n) == [];
    SumNothing(tail[n..]);
    assert s[..n] + s[n..] == s;
  }

  lemma TailValue(total: Blocks, operand: Blocks, r: Blocks, i: nat)
    requires i <= |total| == |r| && r[..i] == total[..i]
    requires Value(r[i..]) == Value(total[i..]) + Value(operand)
    ensures Value(r) == Value(total) + Power(i) * Value(operand)
  {
    hide Value, Power;
    SplitValue(r, i);
    SplitValue(total, i);
    SumsScaled(Power(i), Value(r[i..]), Value(total[i..]), Value(operand));
  }

  lemma SumsScaled(p: int, c: int, a: int, b: int)
    requires c == a + b
    ensures p * c == p * a + p * b
  {
    DistributeLeft(p, a, b);
  }

  lemma DistributeLeft(p: int, a: int, b: int)
    ensures p * (a + b) == p * a + p * b
  {
  }

  lemma SplitValue(m: Blocks, i: nat)
    requires i <= |m|
    ensures Value(m) == Value(m[..i]) + Power(i) * Value(m[i..])
    ensures Value(m[..i]) < Power(i)
  {
    assert m == m[..i] + m[i..];
    ValueConcat(m[..i], m[i..]);
    ValueBound(m[..i]);
  }

  /** When the sum fits, the carry is absorbed before the end of the total. */
  lemma CarryAbsorbed(total: Blocks, operand: Blocks, r: Blocks, i: nat, k: nat)
    requires Adding(total, operand, r, i, k, true)
    requires Value(total) + Power(i) * Value(operand) < Power(|total|)
    ensures k < |total|
  {
    hide Value, Sum, Power, Summing;
    if k == |total| {
      CarryOverflows(total[i..], operand, r[i..]);
      TailOverflows(total, operand, i);
      assert false;
    }
  }

  lemma TailOverflows(total: Blocks, operand: Blocks, i: nat)
    requires i <= |total| && Value(total[i..]) + Value(operand) >= Power(|total| - i)
    ensures Value(total) + Power(i) * Value(operand) >= Power(|total|)
  {
    hide Value, Power;
    SplitValue(total, i);
    PowerAdd(i, |total| - i);
    Overflow(Value(total[i..]), Value(operand), Power(i), Power(|total| - i));
  }

  lemma CarryOverflows(tail: Blocks, operand: Blocks, s: Blocks)
    requires Summing(tail, operand, s, |tail|, true) && |s| == |tail|
    ensures Value(tail) + Value(operand) >= Power(|tail|)
  {
    hide Value, Sum, Power;
    SummingEnd(tail, operand, s, true);
    assert Sum(tail, operand, false) == s + [1];
    SumValue(tail, operand, false);
    ValueConcat(s, [1]);
    OneBlock(1);
  }

  lemma Overflow(t: nat, u: nat, p: nat, q: nat)
    requires t + u >= q
    ensures p * t + p * u >= p * q
  {
    DistributeLeft(p, t, u);
    MulMonotone(q, t + u, p);
  }

  /** Lines 154 to 175: r += b << (i blocks and i2 bits), with the carry rolled over. */
  method AddShifted(r: Magnitude, b: Magnitude, i: nat, i2: nat)
    requires r != b && i2 < NB_BITS && i + |b.blocks| + 1 <= |r.blocks|
    requires Value(r.blocks) + Power(i) * (Value(b.blocks) * Pow2(i2)) < Power(|r.blocks|)
    modifies r
    ensures |r.blocks| == |old(r.blocks)|
    ensures Value(r.blocks) == Value(old(r.blocks)) + Power(i) * (Value(b.blocks) * Pow2(i2))
  {
    hide Value, Power, Pow2, Adding, Shifted, GetShiftedBlock, SumDigit;
    ghost var total := r.blocks;
    Pow2Positive(i2);
    ghost var operand := Shifted(b.blocks, i2, 0);
    ShiftedValue(b.blocks, i2, 0);
    AddingStart(total, operand, i);
    var k, carryIn, j := i, false, 0;
    while j <= |b.blocks|
      invariant j <= |b.blocks| + 1 && k == i + j
      invariant |r.blocks| == |total| && Adding(total, operand, r.blocks, i, k, carryIn)
    {
      ShiftedBlock(b.blocks, j, i2);
      var temp, carryOut := AddBlocks(r.blocks[k], GetShiftedBlock(b.blocks, j, i2), carryIn);
      assert Head(From(operand, k - i)) == operand[j];
      AddingStep(total, operand, r.blocks, i, k, carryIn, temp, carryOut);
      r.blocks := r.blocks[k := temp];
      carryIn := carryOut;
      j, k := j + 1, k + 1;
    }
    while carryIn
      invariant i + |operand| <= k <= |total|
      invariant |r.blocks| == |total| && Adding(total, operand, r.blocks, i, k, carryIn)
      decreases |total| - k
    {
      CarryAbsorbed(total, operand, r.blocks, i, k);
      assert Head(From(operand, k - i)) == 0;
      var digit := WrapAdd(r.blocks[k], 1);
      CarryDigit(r.blocks[k]);
      AddingStep(total, operand, r.blocks, i, k, true, digit, digit == 0);
      r.blocks := r.blocks[k := digit];
      carryIn := digit == 0;
      k := k + 1;
    }
    AddingEnd(total, operand, r.blocks, i, k);
  }

  lemma CarryDigit(x: Block)
    ensures SumDigit(x, 0, true, WrapAdd(x, 1), WrapAdd(x, 1) == 0)
  {
  }

  // ----- how much of the multiplier has been used

  /** The multiplier's blocks below i and the lowest i2 bits of block i. */
  ghost function Used(a: Blocks, i: nat, i2: nat): nat
    requires i < |a|
  {
    Value(a[..i]) + Power(i) * (a[i] % Pow2(i2))
  }

  lemma UsedBit(a: Blocks, i: nat, i2: nat)
    requires i < |a|
    ensures Used(a, i, i2 + 1) == Used(a, i, i2) + (if BitSet(a[i], i2) then Power(i) * Pow2(i2) else 0)
  {
    hide Value, Power, Pow2;
    BitSplits(a[i], i2);
    var low, bit := a[i] % Pow2(i2), if BitSet(a[i], i2) then Pow2(i2) else 0;
    Distribute(low, bit, Power(i));
  }

  lemma UsedNone(a: Blocks, i: nat)
    requires i < |a|
    ensures Used(a, i, 0) == Value(a[..i])
  {
    Pow2Zero();
    hide Value, Power, Pow2;
    assert a[i] % 1 == 0;
  }

  lemma UsedBlock(a: Blocks, i: nat)
    requires i < |a|
    ensures Used(a, i, NB_BITS) == Value(a[..i + 1])
  {
    hide Power, Pow2, Value;
    BaseIsPow2();
    assert a[i] % BASE == a[i];
    ValueTop(a[..i + 1]);
    assert a[..i + 1][..i] == a[..i];
  }

  lemma UsedBound(a: Blocks, i: nat, i2: nat)
    requires i < |a|
    ensures Used(a, i, i2) <= Value(a) < Power(|a|)
  {
    ValueBound(a);
    PrefixAtMost(a, i + 1);
    ValueTop(a[..i + 1]);
    assert a[..i + 1][..i] == a[..i];
    Pow2Positive(i2);
    hide Power, Pow2, Value;
    ModAtMost(a[i], Pow2(i2));
    MulLeft(a[i] % Pow2(i2), a[i], Power(i));
  }

  lemma PrefixAtMost(m: Blocks, i: nat)
    requires i <= |m|
    ensures Value(m[..i]) <= Value(m)
  {
    SplitValue(m, i);
    MulLeft(0, Value(m[i..]), Power(i));
  }

  lemma MulLeft(x: int, y: int, p: nat)
    requires x <= y
    ensures p * x <= p * y
  {
  }

  lemma ModAtMost(x: nat, d: nat)
    requires d > 0
    ensures x % d <= x
  {
    if x < d {
      assert x % d == x;
    }
  }

  /** The next partial product fits into |a| + |b| blocks. */
  lemma PartialFits(a: Blocks, b: Blocks, i: nat, i2: nat)
    requires i < |a| && BitSet(a[i], i2)
    ensures Used(a, i, i2 + 1) * Value(b) == Used(a, i, i2) * Value(b) + Power(i) * (Value(b) * Pow2(i2))
    ensures Used(a, i, i2 + 1) * Value(b) < Power(|a| + |b|)
  {
    hide Power, Pow2, Value, Used;
    UsedBit(a, i, i2);
    UsedBound(a, i, i2 + 1);
    ValueBound(b);
    PowerAdd(|a|, |b|);
    var p, q, v := Power(i), Pow2(i2), Value(b);
    Distribute(Used(a, i, i2), p * q, v);
    assert (p * q) * v == p * (v * q) by {
      MulAssoc3(p, q, v);
    }
    ProductBelow(Used(a, i, i2 + 1), Power(|a|), v, Power(|b|));
  }

  lemma ProductBelow(x: nat, p: nat, y: nat, q: nat)
    requires x < p && y < q
    ensures x * y < p * q
  {
    MulMonotone(x, p - 1, y);
    MulMonotone(y, q - 1, p - 1);
    assert (p - 1) * y == y * (p - 1) && (q - 1) * (p - 1) < p * q;
  }

  lemma {:induction false} ZerosValue(m: Blocks)
    requires forall k :: 0 <= k < |m| ==> m[k] == 0
    ensures Value(m) == 0
  {
    if |m| > 0 {
      ZerosValue(m[1..]);
    }
  }

  /** MulMag: c = a * b, where c may be a or b. */
  method MulMag(a: Magnitude, b: Magnitude, c: Magnitude)
    modifies c
    ensures Value(c.blocks) == Value(old(a.blocks)) * Value(old(b.blocks))
    ensures Normal(old(a.blocks)) && Normal(old(b.blocks)) ==> Normal(c.blocks)
    ensures |old(a.blocks)| == 0 || |old(b.blocks)| == 0 ==> c.blocks == []
    ensures |old(a.blocks)| > 0 && |old(b.blocks)| > 0 ==>
              var n := |old(a.blocks)| + |old(b.blocks)|;
              |c.blocks| == n - 1 || (|c.blocks| == n && Normal(c.blocks))
  {
    hide Value, Power, Pow2, Used, BitSet;
    ghost var A, B := a.blocks, b.blocks;
    if |a.blocks| == 0 || |b.blocks| == 0 {
      ValueNothing();
      c.blocks := [];
      return;
    }
    var tmp := new Magnitude([]);
    var r := if c == a || c == b then tmp else c;
    r.blocks := seq(|a.blocks| + |b.blocks|, _ => 0);
    ZerosValue(r.blocks);
    ValueNothing();
    var i := 0;
    while i < |a.blocks|
      modifies r
      invariant i <= |A|
      invariant |r.blocks| == |A| + |B| && Value(r.blocks) == Value(A[..i]) * Value(B)
    {
      UsedNone(A, i);
      for i2 := 0 to NB_BITS
        modifies r
        invariant |r.blocks| == |A| + |B| && Value(r.blocks) == Used(A, i, i2) * Value(B)
      {
        UsedBit(A, i, i2);
        if BitSet(a.blocks[i], i2) {
          PartialFits(A, B, i, i2);
          AddShifted(r, b, i, i2);
        }
      }
      UsedBlock(A, i);
      i := i + 1;
    }
    assert A[..|A|] == A;
    ProductTop(A, B, r.blocks);
    if r.blocks[|r.blocks| - 1] == 0 {
      r.blocks := r.blocks[..|r.blocks| - 1];
    }
    if c != r {
      c.blocks := r.blocks;
    }
  }

  /** A product of normal magnitudes has at most one leading zero block. */
  lemma ProductTop(a: Blocks, b: Blocks, r: Blocks)
    requires |a| > 0 && |b| > 0 && |r| == |a| + |b| && Value(r) == Value(a) * Value(b)
    ensures r[|r| - 1] == 0 ==> Value(r[..|r| - 1]) == Value(r)
    ensures r[|r| - 1] == 0 && Normal(a) && Normal(b) ==> Normal(r[..|r| - 1])
  {
    hide Value, Power;
    var n := |r| - 1;
    ValueTop(r);
    if r[n] == 0 && Normal(a) && Normal(b) {
      NormalBound(a);
      NormalBound(b);
      PowerAdd(|a| - 1, |b| - 1);
      ProductAtLeast(Value(a), Power(|a| - 1), Value(b), Power(|b| - 1));
      ValueTop(r[..n]);
    }
  }

  lemma ProductAtLeast(x: nat, p: nat, y: nat, q: nat)
    requires x >= p && y >= q
    ensures x * y >= p * q
  {
    MulMonotone(p, x, y);
    MulMonotone(q, y, p);
  }
}
