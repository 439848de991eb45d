// Natural numbers as little-endian vectors of 64-bit blocks: the specification of ZXBigInteger's magnitudes.
module BlockAlgebra {
  import opened BitOps

  const NB_BITS: nat := 64
  const BASE: nat := 0x1_0000_0000_0000_0000

  type Block = x: nat | x < BASE
  type Blocks = seq<Block>

  /** No leading zero block. */
  predicate Normal(m: Blocks) {
    |m| > 0 ==> m[|m| - 1] != 0
  }

  ghost function Value(m: Blocks): nat {
    if |m| == 0 then 0 else m[0] + BASE * Value(m[1..])
  }

  function Bit(b: bool): nat {
    if b then 1 else 0
  }

  ghost function Head(m: Blocks): Block {
    if |m| == 0 then 0 else m[0]
  }

  ghost function Tail(m: Blocks): Blocks {
    if |m| == 0 then m else m[1..]
  }

  // ----- addition

  /** Ripple-carry sum; an extra block appears exactly when a carry is left over. */
  ghost function Sum(a: Blocks, b: Blocks, carry: bool): Blocks
    requires |a| >= |b|
    decreases |a|
  {
    if |a| == 0 then (if carry then [1] else [])
    else
      var s := a[0] + Head(b) + Bit(carry);
      [if s >= BASE then s - BASE else s] + Sum(a[1..], Tail(b), s >= BASE)
  }

  lemma {:induction false} SumLength(a: Blocks, b: Blocks, carry: bool)
    requires |a| >= |b|
    ensures |a| <= |Sum(a, b, carry)| <= |a| + 1
    ensures |Sum(a, b, carry)| > |a| ==> Sum(a, b, carry)[|a|] == 1
    decreases |a|
  {
    if |a| > 0 {
      SumLength(a[1..], Tail(b), a[0] + Head(b) + Bit(carry) >= BASE);
    }
  }

  lemma ValueCons(x: Block, m: Blocks)
    ensures Value([x] + m) == x + BASE * Value(m)
  {
    assert ([x] + m)[1..] == m;
  }

  lemma HeadTail(m: Blocks)
    ensures Value(m) == Head(m) + BASE * Value(Tail(m))
  {
  }

  lemma {:induction false} SumValue(a: Blocks, b: Blocks, carry: bool)
    requires |a| >= |b|
    ensures Value(Sum(a, b, carry)) == Value(a) + Value(b) + Bit(carry)
    decreases |a|
  {
    if |a| > 0 {
      hide Value;
      var s := a[0] + Head(b) + Bit(carry);
      var d: Block := if s >= BASE then s - BASE else s;
      SumValue(a[1..], Tail(b), s >= BASE);
      ValueCons(d, Sum(a[1..], Tail(b), s >= BASE));
      HeadTail(a);
      HeadTail(b);
    } else {
      assert carry ==> Value([1]) == 1;
    }
  }

  lemma {:induction false} SumNormal(a: Blocks, b: Blocks, carry: bool)
    requires |a| >= |b| && Normal(a)
    ensures Normal(Sum(a, b, carry))
    decreases |a|
  {
    if |a| > 0 {
      var s := a[0] + Head(b) + Bit(carry);
      SumNormal(a[1..], Tail(b), s >= BASE);
    }
  }

  lemma {:induction false} SumNothing(a: Blocks)
    ensures Sum(a, [], false) == a
    decreases |a|
  {
    if |a| > 0 {
      SumNothing(a[1..]);
    }
  }

  // ----- subtraction

  /** Ripple-borrow difference of equal width, with the borrow that is left over. */
  ghost function Diff(a: Blocks, b: Blocks, borrow: bool): (r: (Blocks, bool))
    requires |a| >= |b|
    ensures |r.0| == |a|
    decreases |a|
  {
    if |a| == 0 then ([], borrow)
    else
      var d := a[0] - Head(b) - Bit(borrow);
      var rest := Diff(a[1..], Tail(b), d < 0);
      ([if d < 0 then d + BASE else d] + rest.0, rest.1)
  }

  ghost function Power(n: nat): (p: nat)
    ensures p > 0
  {
    if n == 0 then 1 else BASE * Power(n - 1)
  }

  lemma {:induction false} DiffValue(a: Blocks, b: Blocks, borrow: bool)
    requires |a| >= |b|
    ensures Value(Diff(a, b, borrow).0) ==
            Value(a) - Value(b) - Bit(borrow) + (if Diff(a, b, borrow).1 then Power(|a|) else 0)
    decreases |a|
  {
    if |a| > 0 {
      hide Value;
      var d := a[0] - Head(b) - Bit(borrow);
      var digit: Block := if d < 0 then d + BASE else d;
      DiffValue(a[1..], Tail(b), d < 0);
      ValueCons(digit, Diff(a[1..], Tail(b), d < 0).0);
      HeadTail(a);
      HeadTail(b);
    }
  }

  lemma {:induction false} DiffNothing(a: Blocks)
    ensures Diff(a, [], false) == (a, false)
    decreases |a|
  {
    if |a| > 0 {
      DiffNothing(a[1..]);
      var rest := Diff(a[1..], Tail([]), false);
      assert Tail([]) == [];
      assert Diff(a, [], false) == ([a[0]] + rest.0, rest.1);
      assert [a[0]] + a[1..] == a;
    }
  }

  lemma {:induction false} ValueBound(m: Blocks)
    ensures Value(m) < Power(|m|)
  {
    if |m| > 0 {
      ValueBound(m[1..]);
    }
  }

  lemma {:induction false} NormalBound(m: Blocks)
    requires Normal(m) && |m| > 0
    ensures Value(m) >= Power(|m| - 1)
    decreases |m|
  {
    if |m| > 1 {
      NormalBound(m[1..]);
    }
  }

  /** The borrow out says which operand is larger. */
  lemma DiffBorrow(a: Blocks, b: Blocks)
    requires |a| >= |b|
    ensures Diff(a, b, false).1 <==> Value(a) < Value(b)
  {
    DiffValue(a, b, false);
    ValueBound(Diff(a, b, false).0);
    ValueBound(a);
  }

  // ----- leading zeros

  ghost function Trim(m: Blocks): (r: Blocks)
    ensures Normal(r) && |r| <= |m| && r <= m
    ensures Normal(m) ==> r == m
    ensures forall i :: |r| <= i < |m| ==> m[i] == 0
  {
    if |m| > 0 && m[|m| - 1] == 0 then Trim(m[..|m| - 1]) else m
  }

  lemma {:induction false} ValueConcat(p: Blocks, s: Blocks)
    ensures Value(p + s) == Value(p) + Power(|p|) * Value(s)
    decreases |p|
  {
    if |p| == 0 {
      assert p + s == s;
    } else {
      ValueConcat(p[1..], s);
      assert (p + s)[1..] == p[1..] + s;
      var v, w := Power(|p| - 1), Value(s);
      assert BASE * (v * w) == (BASE * v) * w by {
        MulAssoc3(BASE, v, w);
      }
    }
  }

  lemma {:induction false} ValueZeros(m: Blocks)
    requires forall i :: 0 <= i < |m| ==> m[i] == 0
    ensures Value(m) == 0
  {
    if |m| > 0 {
      ValueZeros(m[1..]);
    }
  }

  lemma TrimValue(m: Blocks)
    ensures Value(Trim(m)) == Value(m)
  {
    var r := Trim(m);
    assert m == r + m[|r|..];
    ValueConcat(r, m[|r|..]);
    ValueZeros(m[|r|..]);
  }

  /** A normal magnitude is determined by its value. */
  lemma {:induction false} NormalUnique(a: Blocks, b: Blocks)
    requires Normal(a) && Normal(b) && Value(a) == Value(b)
    ensures a == b
    decreases |a|
  {
    if |a| == 0 || |b| == 0 {
      if |a| > 0 {
        NormalBound(a);
      }
      if |b| > 0 {
        NormalBound(b);
      }
    } else {
      SameDigit(a[0], b[0], Value(a[1..]), Value(b[1..]));
      NormalUnique(a[1..], b[1..]);
      assert a == [a[0]] + a[1..] && b == [b[0]] + b[1..];
    }
  }

  lemma SameDigit(x: nat, y: nat, u: nat, v: nat)
    requires x < BASE && y < BASE && x + BASE * u == y + BASE * v
    ensures x == y && u == v
  {
  }

  // ----- comparison

  /** CompareMag: length first, then blocks from the top. */
  function CompareMag(a: Blocks, b: Blocks): int {
    if |a| < |b| then -1
    else if |a| > |b| then 1
    else CompareFromTop(a, b)
  }

  function CompareFromTop(a: Blocks, b: Blocks): int
    requires |a| == |b|
  {
    if |a| == 0 then 0
    else
      var n := |a| - 1;
      if a[n] != b[n] then (if a[n] < b[n] then -1 else 1) else CompareFromTop(a[..n], b[..n])
  }

  lemma TopBlockDecides(x: nat, y: nat, u: nat, v: nat, p: nat)
    requires u < p && v < p && x < y
    ensures u + p * x < v + p * y
  {
    MulMonotone(x + 1, y, p);
  }

  lemma ValueTop(m: Blocks)
    requires |m| > 0
    ensures var n := |m| - 1;
      Value(m) == Value(m[..n]) + Power(n) * m[n] && Value(m[..n]) < Power(n)
  {
    var n := |m| - 1;
    assert m == m[..n] + [m[n]];
    ValueConcat(m[..n], [m[n]]);
    ValueBound(m[..n]);
    OneBlock(m[n]);
  }

  lemma {:induction false} CompareFromTopCorrect(a: Blocks, b: Blocks)
    requires |a| == |b|
    ensures CompareFromTop(a, b) < 0 <==> Value(a) < Value(b)
    ensures CompareFromTop(a, b) > 0 <==> Value(a) > Value(b)
    decreases |a|
  {
    if |a| > 0 {
      hide Value, Power;
      var n := |a| - 1;
      CompareFromTopCorrect(a[..n], b[..n]);
      ValueTop(a);
      ValueTop(b);
      var u, v, p := Value(a[..n]), Value(b[..n]), Power(n);
      if a[n] < b[n] {
        TopBlockDecides(a[n], b[n], u, v, p);
      } else if b[n] < a[n] {
        TopBlockDecides(b[n], a[n], v, u, p);
      }
    }
  }

  lemma OneBlock(x: Block)
    ensures Value([x]) == x
  {
  }

  lemma {:induction false} PowerMonotone(m: nat, n: nat)
    requires m <= n
    ensures Power(m) <= Power(n)
    decreases n
  {
    if m < n {
      PowerMonotone(m, n - 1);
    }
  }

  lemma CompareMagCorrect(a: Blocks, b: Blocks)
    requires Normal(a) && Normal(b)
    ensures CompareMag(a, b) < 0 <==> Value(a) < Value(b)
    ensures CompareMag(a, b) > 0 <==> Value(a) > Value(b)
  {
    if |a| < |b| {
      ShorterIsSmaller(a, b);
    } else if |a| > |b| {
      ShorterIsSmaller(b, a);
    } else {
      CompareFromTopCorrect(a, b);
    }
  }

  lemma ShorterIsSmaller(a: Blocks, b: Blocks)
    requires Normal(b) && |a| < |b|
    ensures Value(a) < Value(b)
  {
    ValueBound(a);
    NormalBound(b);
    PowerMonotone(|a|, |b| - 1);
  }
}
