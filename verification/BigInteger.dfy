// Signed integers over block vectors (zxing-core/src/ZXBigInteger.cpp:405-571).
module BigInteger {
  import opened BitOps
  import opened BlockAlgebra
  import opened BlockShift
  import opened BigMagnitude
  import opened BigProduct
  import opened BigQuotient

  /**
   * What constructors and the parser produce: no leading zero block, except that zero itself may be one zero
   * block.
   */
  predicate Tidy(m: Blocks) {
    Normal(m) || m == [0]
  }

  ghost function Signed(negative: bool, v: nat): int {
    var magnitude: int := v;
    if negative then -magnitude else magnitude
  }

  class BigInteger {
    var negative: bool
    const mag: Magnitude

    constructor ()
      ensures !negative && fresh(mag) && mag.blocks == [] && Number() == 0
    {
      negative := false;
      mag := new Magnitude([]);
    }

    ghost function Number(): int
      reads this, mag
    {
      Signed(negative, Value(mag.blocks))
    }

    /** The copy assignment. */
    method Assign(x: BigInteger)
      requires Separate(x, this)
      modifies this, mag
      ensures negative == old(x.negative) && mag.blocks == old(x.mag.blocks)
      ensures Number() == old(x.Number())
    {
      negative := x.negative;
      mag.blocks := x.mag.blocks;
    }
  }

  /** Two different integers do not share their block vector. */
  predicate Separate(x: BigInteger, y: BigInteger) {
    x != y ==> x.mag != y.mag
  }

  lemma CompareTidy(a: Blocks, b: Blocks)
    requires Tidy(a) && Tidy(b) && |a| > 0 && |b| > 0
    ensures CompareMag(a, b) < 0 <==> Value(a) < Value(b)
    ensures CompareMag(a, b) > 0 <==> Value(a) > Value(b)
  {
    hide Value;
    if |a| < |b| {
      ShorterIsSmaller(a, b);
    } else if |a| > |b| {
      ShorterIsSmaller(b, a);
    } else {
      CompareFromTopCorrect(a, b);
    }
  }

  lemma CompareLength(a: Blocks, b: Blocks)
    ensures CompareMag(a, b) < 0 ==> |a| <= |b|
    ensures CompareMag(a, b) > 0 ==> |a| >= |b|
  {
  }

  lemma TidyIsNormal(m: Blocks)
    requires Tidy(m)
    ensures Value(m) > 0 || |m| != 1 ==> Normal(m)
    ensures Normal(m) && |m| > 0 ==> Value(m) > 0
  {
    OneBlock(0);
    if Normal(m) && |m| > 0 {
      NormalBound(m);
    }
  }

  lemma SumTidy(a: Blocks, b: Blocks)
    requires Tidy(a) && Tidy(b) && |a| > 0 && |b| > 0
    ensures Tidy(SumOf(a, b))
  {
    if |a| >= |b| {
      LongerTidy(a, b);
    } else {
      LongerTidy(b, a);
    }
  }

  lemma LongerTidy(a: Blocks, b: Blocks)
    requires Tidy(a) && |a| >= |b| > 0
    ensures Tidy(Sum(a, b, false))
  {
    if Normal(a) {
      SumNormal(a, b, false);
    } else {
      assert Tail(b) == [] && a[1..] == [];
      assert Sum([], [], false) == [];
      assert Sum(a, b, false) == [b[0]] + [];
    }
  }

  /** Add: c = a + b, where c may be a or b. */
  method Add(a: BigInteger, b: BigInteger, c: BigInteger)
    requires Tidy(a.mag.blocks) && Tidy(b.mag.blocks) && Separate(a, c) && Separate(b, c)
    modifies c, c.mag
    ensures c.Number() == old(a.Number()) + old(b.Number())
    ensures Tidy(c.mag.blocks)
    ensures old(Normal(a.mag.blocks)) && old(Normal(b.mag.blocks)) ==> Normal(c.mag.blocks)
  {
    hide Value, SumOf;
    ghost var A, B := a.mag.blocks, b.mag.blocks;
    ValueNothing();
    if |a.mag.blocks| == 0 {
      c.Assign(b);
      return;
    }
    if |b.mag.blocks| == 0 {
      c.Assign(a);
      return;
    }
    if a.negative == b.negative {
      c.negative := a.negative;
      SumTidy(A, B);
      AddMag(a.mag, b.mag, c.mag);
    } else {
      CompareTidy(A, B);
      CompareLength(A, B);
      var cmp := CompareMag(a.mag.blocks, b.mag.blocks);
      if cmp < 0 {
        c.negative := b.negative;
        SubMag(b.mag, a.mag, c.mag);
      } else if cmp > 0 {
        c.negative := a.negative;
        SubMag(a.mag, b.mag, c.mag);
      } else {
        c.negative := false;
        c.mag.blocks := [];
      }
    }
  }

  /** Subtract: c = a - b, where c may be a or b. */
  method Subtract(a: BigInteger, b: BigInteger, c: BigInteger)
    requires Tidy(a.mag.blocks) && Tidy(b.mag.blocks) && Separate(a, c) && Separate(b, c)
    modifies c, c.mag
    ensures c.Number() == old(a.Number()) - old(b.Number())
    ensures Tidy(c.mag.blocks)
    ensures old(Normal(a.mag.blocks)) && old(Normal(b.mag.blocks)) ==> Normal(c.mag.blocks)
  {
    hide Value, SumOf;
    ghost var A, B := a.mag.blocks, b.mag.blocks;
    ValueNothing();
    if |a.mag.blocks| == 0 {
      c.negative := !b.negative;
      c.mag.blocks := b.mag.blocks;
      return;
    }
    if |b.mag.blocks| == 0 {
      c.Assign(a);
      return;
    }
    if a.negative != b.negative {
      c.negative := a.negative;
      SumTidy(A, B);
      AddMag(a.mag, b.mag, c.mag);
    } else {
      CompareTidy(A, B);
      CompareLength(A, B);
      var cmp := CompareMag(a.mag.blocks, b.mag.blocks);
      if cmp < 0 {
        c.negative := !b.negative;
        SubMag(b.mag, a.mag, c.mag);
      } else if cmp > 0 {
        c.negative := a.negative;
        SubMag(a.mag, b.mag, c.mag);
      } else {
        c.negative := false;
        c.mag.blocks := [];
      }
    }
  }

  /** A product of tidy magnitudes keeps a leading zero block exactly when one is [0] and the other is longer. */
  ghost predicate TidyProduct(a: Blocks, b: Blocks) {
    (a == [0] ==> |b| <= 1) && (b == [0] ==> |a| <= 1)
  }

  ghost predicate TidyOperand(x: BigInteger)
    reads x, x.mag
  {
    Tidy(x.mag.blocks) && |x.mag.blocks| > 0
  }

  lemma ProductTidy(a: Blocks, b: Blocks, c: Blocks)
    requires Tidy(a) && Tidy(b) && |a| > 0 && |b| > 0 && Value(c) == Value(a) * Value(b)
    requires Normal(a) && Normal(b) ==> Normal(c)
    requires |c| == |a| + |b| - 1 || (|c| == |a| + |b| && Normal(c))
    ensures Tidy(c) <==> TidyProduct(a, b)
  {
    hide Value;
    OneBlock(0);
    if a == [0] || b == [0] {
      SignedProduct(false, Value(a), false, Value(b));
      ZeroValueTidy(c);
    }
  }

  lemma ZeroValueTidy(c: Blocks)
    requires Value(c) == 0
    ensures Tidy(c) <==> |c| <= 1
    ensures Normal(c) <==> c == []
  {
    if |c| == 1 {
      OneBlock(c[0]);
      assert c == [c[0]];
    }
    if Normal(c) && |c| > 0 {
      NormalBound(c);
    }
  }

  /** Multiply: c = a * b, where c may be a or b. */
  method Multiply(a: BigInteger, b: BigInteger, c: BigInteger)
    requires Separate(a, c) && Separate(b, c)
    modifies c, c.mag
    ensures c.Number() == old(a.Number()) * old(b.Number())
    ensures old(Normal(a.mag.blocks)) && old(Normal(b.mag.blocks)) ==> Normal(c.mag.blocks)
    ensures old(TidyOperand(a) && TidyOperand(b)) ==>
              (Tidy(c.mag.blocks) <==> TidyProduct(old(a.mag.blocks), old(b.mag.blocks)))
  {
    hide Value, Tidy, TidyProduct;
    ghost var A, B := a.mag.blocks, b.mag.blocks;
    ghost var x, y := a.negative, b.negative;
    SignedProduct(x, Value(A), y, Value(B));
    ValueNothing();
    if |a.mag.blocks| == 0 || |b.mag.blocks| == 0 {
      c.negative := false;
      c.mag.blocks := [];
      return;
    }
    c.negative := a.negative != b.negative;
    MulMag(a.mag, b.mag, c.mag);
    if old(TidyOperand(a) && TidyOperand(b)) {
      ProductTidy(A, B, c.mag.blocks);
    }
  }

  /** Zero as one zero block times 2^64: two tidy operands with an untidy product. */
  method UntidyProduct() returns (c: BigInteger)
    ensures c.Number() == 0 && !Tidy(c.mag.blocks)
  {
    hide Value;
    var a := new BigInteger();
    var b := new BigInteger();
    c := new BigInteger();
    a.mag.blocks, b.mag.blocks := [0], [0, 1];
    OneBlock(0);
    assert TidyOperand(a) && TidyOperand(b) && !TidyProduct(a.mag.blocks, b.mag.blocks);
    Multiply(a, b, c);
  }

  lemma SignedProduct(x: bool, u: nat, y: bool, v: nat)
    ensures Signed(x, u) * Signed(y, v) == Signed(x != y, u * v)
    ensures u == 0 || v == 0 ==> u * v == 0
  {
  }

  // ----- division

  /** The real quotient rounded down, for a nonzero divisor of either sign. */
  function FloorDiv(x: int, y: int): int
    requires y != 0
  {
    if y > 0 then x / y else (-x) / (-y)
  }

  /** The floor quotient is the one whose remainder takes the divisor's sign. */
  lemma FloorDivUnique(x: int, y: int, q: int, r: int)
    requires y != 0 && x == y * q + r
    ensures (if y > 0 then 0 <= r < y else y < r <= 0) <==> FloorDiv(x, y) == q
  {
    var n, z, s := if y > 0 then y else -y, if y > 0 then x else -x, if y > 0 then r else -r;
    assert z == n * q + s by {
      assert (-y) * q == -(y * q);
    }
    EuclidUnique(z, n, q, s);
  }

  lemma EuclidUnique(z: int, n: int, q: int, s: int)
    requires n > 0 && z == n * q + s
    ensures 0 <= s < n <==> z / n == q
  {
    var d := z / n - q;
    assert z == n * (z / n) + z % n;
    assert d * n == s - z % n by {
      assert d * n == n * (z / n) - n * q;
    }
    if 0 <= s < n {
      SmallMultiple(d, n);
    }
  }

  lemma MixedSigns(negative: bool, u: nat, v: nat, q: nat, r: nat)
    requires u >= 1 && u - 1 == q * v + r && r < v
    ensures Signed(!negative, u) == Signed(negative, v) * Signed(true, q + 1) + Signed(negative, v - r - 1)
  {
    assert v * (q + 1) == q * v + v;
    assert v * (-(q + 1)) == -(v * (q + 1));
  }

  lemma SameSigns(negative: bool, u: nat, v: nat, q: nat, r: nat)
    requires u == q * v + r
    ensures Signed(negative, u) == Signed(negative, v) * q + Signed(negative, r)
  {
    var divisor: int := v;
    assert v * q == q * v && (-divisor) * q == -(divisor * q);
  }

  lemma ShortRemainder(m: Blocks, b: Blocks)
    requires Normal(m) && Normal(b) && Value(m) < Value(b)
    ensures |m| <= |b|
  {
    if |b| < |m| {
      ShorterIsSmaller(b, m);
      assert false;
    }
  }

  lemma NormalPositive(m: Blocks)
    requires Normal(m)
    ensures Value(m) > 0 <==> |m| > 0
  {
    if |m| > 0 {
      NormalBound(m);
    } else {
      ValueNothing();
    }
  }

  /** The magnitude part of the division of operands with different signs; q or r may be a. */
  method DivideMixed(a: Magnitude, b: Magnitude, q: Magnitude, r: Magnitude)
    requires q != r && q != b && r != b
    requires Normal(a.blocks) && Normal(b.blocks) && 0 < |b.blocks| <= |a.blocks|
    modifies q, r
    ensures Normal(q.blocks) && Normal(r.blocks) && Value(q.blocks) > 0
    ensures Value(r.blocks) < Value(b.blocks)
    ensures Value(old(a.blocks)) - 1 ==
            (Value(q.blocks) - 1) * Value(b.blocks) + (Value(b.blocks) - Value(r.blocks) - 1)
  {
    hide Value, SumOf;
    var one := new Magnitude([1]);
    OneBlock(1);
    ValueNothing();
    NormalPositive(a.blocks);
    NormalPositive(b.blocks);
    var aa := new Magnitude([]);
    SubMag(a, one, aa);
    ghost var decreased := aa.blocks;
    DivideWithRemainder(aa, b, q, r);
    if |decreased| < |b.blocks| {
      ShorterIsSmaller(decreased, b.blocks);
    }
    ShortRemainder(r.blocks, b.blocks);
    assert Value(decreased) == Value(q.blocks) * Value(b.blocks) + Value(r.blocks);
    AddMag(q, one, q);
    SubMag(b, r, r);
    NormalPositive(r.blocks);
    SubMag(r, one, r);
  }

  /** The sign bit of zero is clear. */
  ghost predicate Canonical(x: BigInteger)
    reads x, x.mag
  {
    Normal(x.mag.blocks) && (x.negative ==> |x.mag.blocks| > 0)
  }

  lemma ShortDividend(x: bool, a: Blocks, y: bool, b: Blocks)
    requires Normal(b) && |a| < |b|
    ensures Signed(y, Value(b)) != 0
    ensures FloorDiv(Signed(x, Value(a)), Signed(y, Value(b))) == 0 <==> Value(a) == 0 || x == y
  {
    hide Value, FloorDiv;
    ShorterIsSmaller(a, b);
    FloorDivUnique(Signed(x, Value(a)), Signed(y, Value(b)), 0, Signed(x, Value(a)));
  }

  lemma FloorRemainder(negative: bool, v: nat, x: int, q: int, r: nat)
    requires r < v && x == Signed(negative, v) * q + Signed(negative, r)
    ensures var y := Signed(negative, v);
      && y != 0 && q == FloorDiv(x, y)
      && (if y > 0 then 0 <= Signed(negative, r) < y else y < Signed(negative, r) <= 0)
  {
    hide FloorDiv;
    FloorDivUnique(x, Signed(negative, v), q, Signed(negative, r));
  }

  lemma SignedFacts()
    ensures forall negative, v: nat :: Signed(negative, v) == 0 <==> v == 0
    ensures forall v: nat :: Signed(false, v) == v
  {
  }

  /** The dividend is shorter than the divisor, or the divisor is zero. */
  predicate ReturnsEarly(a: Blocks, b: Blocks) {
    |b| == 0 || |a| < |b|
  }

  /**
   * Divide. With at least as many blocks in the dividend as in a nonzero divisor this is floor division;
   * otherwise the quotient is zero and the remainder is the dividend, whatever the signs. Outputs may be operands: any
   * may before an early return; after it the quotient may always be the dividend, either output may be the divisor if
   * the signs are equal, and the remainder may be the dividend if they differ. Two of these spoil the remainder: an
   * early return has cleared a dividend that is the quotient, and a divisor that is the quotient has lost its sign.
   */
  method Divide(a: BigInteger, b: BigInteger, quotient: BigInteger, remainder: BigInteger)
    requires Normal(a.mag.blocks) && Normal(b.mag.blocks) && quotient != remainder
    requires !ReturnsEarly(a.mag.blocks, b.mag.blocks) ==>
               && (quotient == b || remainder == b ==> a.negative == b.negative)
               && (remainder == a ==> a.negative != b.negative)
    requires Separate(a, quotient) && Separate(b, quotient) && Separate(a, remainder) && Separate(b, remainder)
    requires Separate(quotient, remainder)
    modifies quotient, quotient.mag, remainder, remainder.mag
    ensures !ReturnsEarly(old(a.mag.blocks), old(b.mag.blocks)) ==>
              var x, y, q := old(a.Number()), old(b.Number()), quotient.Number();
              && y != 0 && q == FloorDiv(x, y) && (if y > 0 then 0 <= x - y * q < y else y < x - y * q <= 0)
              && remainder.Number() == (if quotient == b && old(b.negative) then -(x - y * q) else x - y * q)
              && Canonical(quotient) && Canonical(remainder)
    ensures ReturnsEarly(old(a.mag.blocks), old(b.mag.blocks)) ==>
              var x, y := old(a.Number()), old(b.Number());
              && quotient.Number() == 0 && remainder.Number() == (if quotient == a then 0 else x)
              && (y != 0 ==> (FloorDiv(x, y) == 0 <==> x == 0 || old(a.negative) == old(b.negative)))
  {
    hide Value, FloorDiv, Signed;
    SignedFacts();
    NormalPositive(a.mag.blocks);
    NormalPositive(b.mag.blocks);
    ValueNothing();
    ghost var x, y, negative := a.Number(), b.Number(), b.negative;
    ghost var u, v := Value(a.mag.blocks), Value(b.mag.blocks);
    if |b.mag.blocks| == 0 || |a.mag.blocks| < |b.mag.blocks| {
      if |b.mag.blocks| > 0 {
        ShortDividend(a.negative, a.mag.blocks, b.negative, b.mag.blocks);
      }
      quotient.mag.blocks := [];
      quotient.negative := false;
      remainder.Assign(a);
      return;
    }
    if a.negative == b.negative {
      quotient.negative := false;
      DivideWithRemainder(a.mag, b.mag, quotient.mag, remainder.mag);
      SameSigns(negative, u, v, Value(quotient.mag.blocks), Value(remainder.mag.blocks));
    } else {
      quotient.negative := true;
      DivideMixed(a.mag, b.mag, quotient.mag, remainder.mag);
      MixedSigns(negative, u, v, Value(quotient.mag.blocks) - 1, v - Value(remainder.mag.blocks) - 1);
    }
    remainder.negative := b.negative;
    NormalPositive(quotient.mag.blocks);
    NormalPositive(remainder.mag.blocks);
    if |remainder.mag.blocks| == 0 {
      remainder.negative := false;
    }
    if |quotient.mag.blocks| == 0 {
      quotient.negative := false;
    }
    SignedFacts();
    SignedOpposite(Value(remainder.mag.blocks));
    FloorRemainder(negative, v, x, quotient.Number(), Value(remainder.mag.blocks));
  }

  lemma SignedOpposite(v: nat)
    ensures Signed(false, v) == -Signed(true, v)
  {
  }

  /** The early return is not always floor division: -1 / 2^64 gives 0 and not -1. */
  lemma EarlyReturnIsNotFloor()
    ensures Normal([1]) && Normal([0, 1]) && |[1]| < |[0, 1]|
    ensures Signed(true, Value([1])) == -1 && Signed(false, Value([0, 1])) == BASE
    ensures FloorDiv(-1, BASE) == -1
  {
    OneBlock(1);
    ValueCons(0, [1]);
    FloorDivUnique(-1, BASE, -1, BASE - 1);
  }
}
