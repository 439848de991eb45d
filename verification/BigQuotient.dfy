// Shift-and-subtract division of magnitudes (zxing-core/src/ZXBigInteger.cpp:198-343).
module BigQuotient {
  import opened BitOps
  import opened BlockAlgebra
  import opened BlockShift
  import opened BigMagnitude
  import opened BigProduct

  /** Blocks i up to k of the trial difference are in the buffer. */
  ghost predicate Taking(total: Blocks, operand: Blocks, buf: Blocks, i: nat, k: nat, borrow: bool) {
    && i <= k <= |buf| == |total| && |operand| <= |buf| - i
    && Subtracting(total[i..], operand, buf[i..], k - i, borrow)
  }

  lemma TakingStart(total: Blocks, operand: Blocks, buf: Blocks, i: nat)
    requires i <= |total| == |buf| && |operand| <= |total| - i
    ensures Taking(total, operand, buf, i, i, false)
  {
    SubtractingStart(total[i..], operand, buf[i..]);
  }

  lemma TakingStep(total: Blocks, operand: Blocks, buf: Blocks, i: nat, k: nat, borrow: bool, digit: Block,
                   borrow': bool)
    requires Taking(total, operand, buf, i, k, borrow) && k < |buf|
    requires DiffDigit(total[k], Head(From(operand, k - i)), borrow, digit, borrow')
    ensures Taking(total, operand, buf[k := digit], i, k + 1, borrow')
  {
    hide Subtracting, From, Head, DiffDigit;
    assert total[k] == total[i..][k - i];
    SubtractingStep(total[i..], operand, buf[i..], k - i, borrow, digit, borrow');
    assert buf[i..][k - i := digit] == buf[k := digit][i..];
  }

  /** No borrow left: the buffered blocks, put back, turn the total into the exact difference. */
  lemma TakingFits(total: Blocks, operand: Blocks, buf: Blocks, i: nat, k: nat)
    requires Taking(total, operand, buf, i, k, false) && k - i >= |operand|
    ensures Value(total[i..]) >= Value(operand)
    ensures Value(buf[i..k] + total[k..]) == Value(total[i..]) - Value(operand)
  {
    hide Value, Subtracting, Diff;
    var tail, n := total[i..], k - i;
    SubtractingRest(tail, operand, buf[i..], n);
    assert buf[i..][..n] == buf[i..k] && tail[n..] == total[k..];
    DiffBorrow(tail, operand);
    DiffValue(tail, operand, false);
  }

  /** A borrow left at the top: the operand is larger. */
  lemma TakingFails(total: Blocks, operand: Blocks, buf: Blocks, i: nat, k: nat)
    requires Taking(total, operand, buf, i, k, true) && k - i >= |operand|
    requires k == |total| || (k == |total| - 1 && total[k] == 0)
    ensures Value(total[i..]) < Value(operand)
    decreases |total| - k
  {
    if k < |total| {
      assert From(operand, k - i) == [];
      assert DiffDigit(total[k], 0, true, BASE - 1, true);
      hide Taking, DiffDigit, Value;
      TakingStep(total, operand, buf, i, k, true, BASE - 1, true);
      TakingFails(total, operand, buf[k := BASE - 1], i, k + 1);
    } else {
      hide Value, Subtracting, Diff;
      SubtractingEnd(total[i..], operand, buf[i..], true);
      DiffBorrow(total[i..], operand);
    }
  }

  lemma TailCompares(total: Blocks, i: nat, v: nat)
    requires i <= |total|
    ensures Value(total[i..]) >= v <==> Value(total) >= Power(i) * v
  {
    hide Value, Power;
    SplitValue(total, i);
    if Value(total[i..]) >= v {
      MulLeft(v, Value(total[i..]), Power(i));
    } else {
      TailBelow(Value(total[..i]), Value(total[i..]), Power(i), v);
    }
  }

  lemma TailBelow(low: nat, t: nat, p: nat, v: nat)
    requires low < p && t < v
    ensures low + p * t < p * v
  {
    MulLeft(t + 1, v, p);
    DistributeLeft(p, t, 1);
  }

  lemma TailDifference(total: Blocks, i: nat, r: Blocks, v: nat)
    requires i <= |total| == |r| && r[..i] == total[..i]
    requires Value(r[i..]) == Value(total[i..]) - v
    ensures Value(r) == Value(total) - Power(i) * v
  {
    hide Value, Power;
    SplitValue(r, i);
    SplitValue(total, i);
    DistributeLeft(Power(i), Value(r[i..]), v);
  }

  /**
   * Lines 292 to 327: subtract b << (i blocks and i2 bits) from r into the buffer and copy the buffer back if
   * nothing is left to borrow. The return value says whether the bit goes into the quotient.
   */
  method TrySubtract(r: Magnitude, subtractBuf: Magnitude, b: Magnitude, aSize: nat, i: nat, i2: nat)
    returns (fits: bool)
    requires r != subtractBuf && r != b && subtractBuf != b
    requires |r.blocks| == |subtractBuf.blocks| == aSize + 1 && i + |b.blocks| <= aSize && i2 < NB_BITS
    requires i + |b.blocks| < aSize ==> r.blocks[aSize] == 0
    modifies r, subtractBuf
    ensures |r.blocks| == |subtractBuf.blocks| == aSize + 1
    ensures fits <==> Value(old(r.blocks)) >= Power(i) * (Value(b.blocks) * Pow2(i2))
    ensures Value(r.blocks) ==
            Value(old(r.blocks)) - (if fits then Power(i) * (Value(b.blocks) * Pow2(i2)) else 0)
  {
    hide Value, Power, Pow2, Taking, Shifted, GetShiftedBlock, DiffDigit;
    ghost var total := r.blocks;
    Pow2Positive(i2);
    ghost var operand := Shifted(b.blocks, i2, 0);
    ShiftedValue(b.blocks, i2, 0);
    TakingStart(total, operand, subtractBuf.blocks, i);
    var k, borrowIn, j := i, false, 0;
    while j <= |b.blocks|
      modifies subtractBuf
      invariant j <= |b.blocks| + 1 && k == i + j
      invariant |subtractBuf.blocks| == |total| && Taking(total, operand, subtractBuf.blocks, i, k, borrowIn)
    {
      ShiftedBlock(b.blocks, j, i2);
      var temp, borrowOut := SubBlocks(r.blocks[k], GetShiftedBlock(b.blocks, j, i2), borrowIn);
      assert Head(From(operand, k - i)) == operand[j];
      TakingStep(total, operand, subtractBuf.blocks, i, k, borrowIn, temp, borrowOut);
      subtractBuf.blocks := subtractBuf.blocks[k := temp];
      borrowIn := borrowOut;
      j, k := j + 1, k + 1;
    }
    while k < aSize && borrowIn
      modifies subtractBuf
      invariant i + |operand| <= k <= |total|
      invariant borrowIn && k == aSize ==> total[k] == 0
      invariant |subtractBuf.blocks| == |total| && Taking(total, operand, subtractBuf.blocks, i, k, borrowIn)
    {
      var digit := WrapSub(r.blocks[k], 1);
      assert Head(From(operand, k - i)) == 0;
      BorrowDigit(r.blocks[k]);
      TakingStep(total, operand, subtractBuf.blocks, i, k, true, digit, r.blocks[k] == 0);
      borrowIn := r.blocks[k] == 0;
      subtractBuf.blocks := subtractBuf.blocks[k := digit];
      k := k + 1;
    }
    fits := !borrowIn;
    TailCompares(total, i, Value(operand));
    if fits {
      TakingFits(total, operand, subtractBuf.blocks, i, k);
      CopyBack(r, subtractBuf, i, k);
      TailDifference(total, i, r.blocks, Value(operand));
    } else {
      TakingFails(total, operand, subtractBuf.blocks, i, k);
    }
  }

  lemma BorrowDigit(x: Block)
    ensures DiffDigit(x, 0, true, WrapSub(x, 1), x == 0)
  {
  }

  /** Lines 323 to 326: blocks i up to `end` of the buffer, from the top down. */
  method CopyBack(r: Magnitude, subtractBuf: Magnitude, i: nat, end: nat)
    requires r != subtractBuf && i <= end <= |r.blocks| == |subtractBuf.blocks|
    modifies r
    ensures |r.blocks| == |old(r.blocks)|
    ensures r.blocks[..i] == old(r.blocks)[..i]
    ensures r.blocks[i..] == subtractBuf.blocks[i..end] + old(r.blocks)[end..]
  {
    var k := end;
    while k > i
      invariant i <= k <= end
      invariant r.blocks == old(r.blocks)[..k] + subtractBuf.blocks[k..end] + old(r.blocks)[end..]
    {
      k := k - 1;
      ghost var was := r.blocks;
      r.blocks := r.blocks[k := subtractBuf.blocks[k]];
      assert subtractBuf.blocks[k..end] == [subtractBuf.blocks[k]] + subtractBuf.blocks[k + 1..end];
      assert r.blocks == was[..k] + [subtractBuf.blocks[k]] + was[k + 1..];
    }
  }

  // ----- the quotient, bit by bit from the top

  /** Blocks i and up of the quotient are final, and the rest of the quotient has less than i blocks. */
  ghost predicate DividedTo(va: nat, v: nat, q: Blocks, r: nat, i: nat) {
    i <= |q| && va == Power(i) * (Value(q[i..]) * v) + r && r < Power(i) * v
  }

  /** The same within block i, whose bits i2 and up are final and whose lower bits are still clear. */
  ghost predicate Dividing(va: nat, v: nat, q: Blocks, r: nat, i: nat, i2: nat) {
    && i < |q| && q[i] % Pow2(i2) == 0
    && va == Power(i) * (Value(q[i..]) * v) + r
    && r < Power(i) * (v * Pow2(i2))
  }

  lemma DividingBlock(va: nat, v: nat, q: Blocks, r: nat, i: nat)
    requires i < |q| && DividedTo(va, v, q, r, i + 1)
    ensures Dividing(va, v, q[i := 0], r, i, NB_BITS)
  {
    var q' := q[i := 0];
    assert q'[i..] == [0] + q[i + 1..];
    ValueCons(0, q[i + 1..]);
    assert Power(i + 1) == BASE * Power(i);
    BaseIsPow2();
    hide Value, Power, Pow2;
    ZeroMod(Pow2(NB_BITS));
    MoveBase(Power(i), Value(q[i + 1..]), v);
  }

  lemma ZeroMod(d: nat)
    requires d > 0
    ensures 0 % d == 0
  {
  }

  lemma MoveBase(p: nat, x: nat, v: nat)
    ensures BASE * p * (x * v) == p * (BASE * x * v)
    ensures BASE * p * v == p * (v * BASE)
  {
    MulAssoc3(BASE, x, v);
    SwapFactors(BASE, p, x * v);
    SwapFactors(BASE, p, v);
  }

  lemma SwapFactors(a: int, p: int, x: int)
    ensures a * p * x == p * (a * x)
    ensures a * x == x * a
  {
    assert a * p == p * a;
  }

  lemma DividingDone(va: nat, v: nat, q: Blocks, r: nat, i: nat)
    requires Dividing(va, v, q, r, i, 0)
    ensures DividedTo(va, v, q, r, i)
  {
    Pow2Zero();
    hide Value, Power, Pow2;
  }

  /** The bit stays off. */
  lemma DividingOff(va: nat, v: nat, q: Blocks, r: nat, i: nat, i2: nat)
    requires Dividing(va, v, q, r, i, i2 + 1) && r < Power(i) * (v * Pow2(i2))
    ensures Dividing(va, v, q, r, i, i2)
  {
    hide Value, Power;
    MultipleHalves(q[i], i2);
  }

  lemma MultipleHalves(x: nat, n: nat)
    requires x % Pow2(n + 1) == 0
    ensures x % Pow2(n) == 0
  {
    BitSplits(x, n);
  }

  lemma OrSetsBit(x: Block, n: nat)
    requires n < NB_BITS && x % Pow2(n + 1) == 0
    ensures Or(x, Pow2(n)) == x + Pow2(n) < BASE
    ensures (x + Pow2(n)) % Pow2(n) == 0
  {
    hide Or;
    var p := Pow2(n);
    assert Pow2(n + 1) == 2 * p;
    Pow2Small(n);
    hide Pow2;
    var h := x / (2 * p);
    DivMod(x, 2 * p);
    OrDisjoint(p, h, n + 1);
    assert 2 * p * h == h * (2 * p);
    OrComm(x, p);
    OrBlock(x, p);
    OddMultiple(x, h, p);
  }

  lemma OddMultiple(x: nat, h: nat, p: nat)
    requires p > 0 && x == h * (2 * p)
    ensures (x + p) % p == 0
  {
    assert x + p == (2 * h + 1) * p + 0;
    ModUnique(x + p, p, 2 * h + 1, 0);
  }

  lemma Pow2Small(n: nat)
    requires n < NB_BITS
    ensures Pow2(n) < BASE
  {
    BaseIsPow2();
    Pow2Add(n, NB_BITS - n);
    var p, s := Pow2(n), Pow2(NB_BITS - n);
    assert s == 2 * Pow2(NB_BITS - n - 1);
    hide Pow2;
    MulMonotone(2, s, p);
  }

  /** The bit goes on. */
  lemma DividingOn(va: nat, v: nat, q: Blocks, r: nat, i: nat, i2: nat, digit: Block)
    requires Dividing(va, v, q, r, i, i2 + 1) && r >= Power(i) * (v * Pow2(i2)) && i2 < NB_BITS
    requires digit == q[i] + Pow2(i2) && digit % Pow2(i2) == 0
    ensures Dividing(va, v, q[i := digit], r - Power(i) * (v * Pow2(i2)), i, i2)
  {
    hide Value, Power, Pow2;
    var p := Pow2(i2);
    Pow2Next(i2);
    DigitValue(q, i, digit);
    BitMoves(Power(i), Value(q[i..]), p, v);
  }

  lemma DigitValue(q: Blocks, i: nat, digit: Block)
    requires i < |q|
    ensures Value(q[i := digit][i..]) == Value(q[i..]) - q[i] + digit
  {
    hide Value;
    assert q[i := digit][i..] == [digit] + q[i + 1..] && q[i..] == [q[i]] + q[i + 1..];
    ValueCons(digit, q[i + 1..]);
    ValueCons(q[i], q[i + 1..]);
  }

  lemma BitMoves(w: nat, x: nat, p: nat, v: nat)
    ensures w * ((x + p) * v) == w * (x * v) + w * (v * p)
    ensures w * (v * (2 * p)) == w * (v * p) + w * (v * p)
  {
    Distribute(x, p, v);
    DistributeLeft(w, x * v, v * p);
    assert v * (2 * p) == v * p + v * p;
    DistributeLeft(w, v * p, v * p);
  }

  /** While lower blocks are worked on, the extra block on top of the remainder is zero. */
  lemma TopBlockZero(v: nat, m: nat, r: Blocks, i: nat, i2: nat)
    requires v < Power(m) && i2 <= NB_BITS && i + m + 1 < |r|
    requires Value(r) < Power(i) * (v * Pow2(i2))
    ensures r[|r| - 1] == 0
  {
    hide Value, Power, Pow2;
    var n := |r| - 1;
    ValueTop(r);
    MovedBound(v, m, i, i2);
    PowerMonotone(i + m + 1, n);
    if r[n] != 0 {
      MulLeft(1, r[n], Power(n));
      assert false;
    }
  }

  lemma MovedBound(v: nat, m: nat, i: nat, i2: nat)
    requires v < Power(m) && i2 <= NB_BITS
    ensures Power(i) * (v * Pow2(i2)) <= Power(i + m + 1)
  {
    hide Power, Pow2;
    Pow2AtMost(i2, NB_BITS);
    BaseIsPow2();
    PowerAdd(m, 1);
    PowerOne();
    PowerAdd(i, m + 1);
    ProductAtMost(v, Power(m), Pow2(i2), BASE);
    MulLeft(v * Pow2(i2), Power(m) * BASE, Power(i));
  }

  lemma PowerOne()
    ensures Power(1) == BASE
  {
    assert Power(1) == BASE * Power(0);
  }

  /** The dividend is below the divisor moved up by the length of the quotient. */
  lemma DividedStart(a: Blocks, b: Blocks, q: Blocks)
    requires |a| >= |b| > 0 && Normal(b) && |q| == |a| - |b| + 1
    ensures DividedTo(Value(a), Value(b), q, Value(a), |q|)
  {
    assert q[|q|..] == [];
    ValueNothing();
    ValueBound(a);
    NormalBound(b);
    PowerAdd(|q|, |b| - 1);
    hide Value, Power;
    MulLeft(Power(|b| - 1), Value(b), Power(|q|));
  }

  lemma DividedAll(va: nat, v: nat, q: Blocks, r: nat)
    requires DividedTo(va, v, q, r, 0)
    ensures va == Value(q) * v + r && r < v
  {
    assert Power(0) == 1 && q[0..] == q;
    hide Value, Power;
  }

  /** The quotient has at most one leading zero block. */
  lemma QuotientTop(a: Blocks, b: Blocks, q: Blocks, r: nat)
    requires |a| >= |b| > 0 && |q| == |a| - |b| + 1
    requires Value(a) == Value(q) * Value(b) + r && r < Value(b)
    ensures q[|q| - 1] == 0 ==> Value(q[..|q| - 1]) == Value(q)
    ensures q[|q| - 1] == 0 && Normal(a) ==> Normal(q[..|q| - 1])
  {
    hide Value, Power;
    var n := |q| - 1;
    ValueTop(q);
    if q[n] == 0 && Normal(a) && n > 0 {
      NormalBound(a);
      ValueBound(b);
      PowerAdd(n - 1, |b|);
      ValueTop(q[..n]);
      if Value(q) < Power(n - 1) {
        QuotientBelow(Value(q), Power(n - 1), Value(b), Power(|b|), r);
        assert false;
      }
    }
  }

  lemma QuotientBelow(x: nat, p: nat, v: nat, s: nat, r: nat)
    requires x < p && v < s && r < v
    ensures x * v + r < p * s
  {
    ProductAtMost(x + 1, p, v, s);
    Distribute(x, 1, v);
  }

  /**
   * DivideWithRemainder: qq = a / b and rr = a % b. The quotient may be the dividend or the divisor, and the
   * remainder may be the divisor; the remainder must not be the dividend.
   */
  method DivideWithRemainder(a: Magnitude, b: Magnitude, qq: Magnitude, rr: Magnitude)
    requires rr != qq && rr != a && Normal(b.blocks)
    modifies qq, rr
    ensures |old(b.blocks)| == 0 || |old(a.blocks)| < |old(b.blocks)| ==>
              qq.blocks == [] && rr.blocks == if qq == a then [] else old(a.blocks)
    ensures 0 < |old(b.blocks)| <= |old(a.blocks)| ==>
              && Value(old(a.blocks)) == Value(qq.blocks) * Value(old(b.blocks)) + Value(rr.blocks)
              && Value(rr.blocks) < Value(old(b.blocks))
              && Normal(rr.blocks)
              && (var n := |old(a.blocks)| - |old(b.blocks)|;
                 |qq.blocks| == n || (|qq.blocks| == n + 1 && Normal(qq.blocks)))
    ensures Normal(old(a.blocks)) ==> Normal(qq.blocks)
  {
    hide Value, Power, Pow2, DividedTo, Dividing;
    ghost var A, B := a.blocks, b.blocks;
    var tmp := new Magnitude([]);
    var tmp2 := new Magnitude([]);
    var q := if qq == a || qq == b then tmp else qq;
    var r := if rr == b then tmp2 else rr;
    if |b.blocks| == 0 || |a.blocks| < |b.blocks| {
      qq.blocks := [];
      rr.blocks := a.blocks;
      return;
    }
    r.blocks := a.blocks + [0];
    ExtraZero(A);
    var subtractBuf := new Magnitude(seq(|r.blocks|, _ => 0));
    q.Resize(|a.blocks| - |b.blocks| + 1);
    DividedStart(A, B, q.blocks);
    DivideBlocks(q, r, subtractBuf, b, Value(A), |a.blocks|);
    DividedAll(Value(A), Value(B), q.blocks, Value(r.blocks));
    QuotientTop(A, B, q.blocks, Value(r.blocks));
    if q.blocks[|q.blocks| - 1] == 0 {
      q.blocks := q.blocks[..|q.blocks| - 1];
    }
    ZapLeadingZeros(r);
    if qq != q {
      qq.blocks := q.blocks;
    }
    if rr != r {
      rr.blocks := r.blocks;
    }
  }

  lemma ExtraZero(a: Blocks)
    ensures Value(a + [0]) == Value(a)
  {
    ValueConcat(a, [0]);
    OneBlock(0);
  }

  /** Lines 275 to 329: every block of the quotient, from the top down. */
  method DivideBlocks(q: Magnitude, r: Magnitude, subtractBuf: Magnitude, b: Magnitude, ghost va: nat, aSize: nat)
    requires q != r && q != subtractBuf && q != b && r != subtractBuf && r != b && subtractBuf != b
    requires |r.blocks| == |subtractBuf.blocks| == aSize + 1 && |q.blocks| + |b.blocks| == aSize + 1
    requires DividedTo(va, Value(b.blocks), q.blocks, Value(r.blocks), |q.blocks|)
    modifies q, r, subtractBuf
    ensures |r.blocks| == aSize + 1 && |q.blocks| == |old(q.blocks)|
    ensures DividedTo(va, Value(b.blocks), q.blocks, Value(r.blocks), 0)
  {
    hide Value, Power, Pow2, DividedTo, Dividing;
    ghost var v := Value(b.blocks);
    var i := |q.blocks|;
    while i > 0
      modifies q, r, subtractBuf
      invariant 0 <= i <= |q.blocks| == |old(q.blocks)|
      invariant |r.blocks| == |subtractBuf.blocks| == aSize + 1
      invariant DividedTo(va, v, q.blocks, Value(r.blocks), i)
    {
      i := i - 1;
      DividingBlock(va, v, q.blocks, Value(r.blocks), i);
      q.blocks := q.blocks[i := 0];
      DivideBlock(q, r, subtractBuf, b, va, aSize, i);
      DividingDone(va, v, q.blocks, Value(r.blocks), i);
    }
  }

  /** Lines 281 to 328: block i of the quotient. */
  method DivideBlock(q: Magnitude, r: Magnitude, subtractBuf: Magnitude, b: Magnitude,
                     ghost va: nat, aSize: nat, i: nat)
    requires q != r && q != subtractBuf && q != b && r != subtractBuf && r != b && subtractBuf != b
    requires |r.blocks| == |subtractBuf.blocks| == aSize + 1 && i + |b.blocks| <= aSize
    requires Dividing(va, Value(b.blocks), q.blocks, Value(r.blocks), i, NB_BITS)
    modifies q, r, subtractBuf
    ensures |r.blocks| == |subtractBuf.blocks| == aSize + 1 && |q.blocks| == |old(q.blocks)|
    ensures Dividing(va, Value(b.blocks), q.blocks, Value(r.blocks), i, 0)
  {
    hide Value, Power, Pow2, Or;
    ghost var v := Value(b.blocks);
    ValueBound(b.blocks);
    var i2 := NB_BITS;
    while i2 > 0
      modifies q, r, subtractBuf
      invariant 0 <= i2 <= NB_BITS
      invariant |r.blocks| == |subtractBuf.blocks| == aSize + 1 && |q.blocks| == |old(q.blocks)|
      invariant Dividing(va, v, q.blocks, Value(r.blocks), i, i2)
    {
      if i + |b.blocks| < aSize {
        TopBlockZero(v, |b.blocks|, r.blocks, i, i2);
      }
      i2 := i2 - 1;
      ghost var before := Value(r.blocks);
      var fits := TrySubtract(r, subtractBuf, b, aSize, i, i2);
      OrSetsBit(q.blocks[i], i2);
      if fits {
        DividingOn(va, v, q.blocks, before, i, i2, Or(q.blocks[i], Pow2(i2)));
        q.blocks := q.blocks[i := Or(q.blocks[i], Pow2(i2))];
      } else {
        DividingOff(va, v, q.blocks, before, i, i2);
      }
    }
  }
}
