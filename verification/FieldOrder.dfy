// When the powers of alpha are distinct: the order of alpha, decided from a few of its powers.
module FieldOrder {
  import opened BitOps
  import opened GenericGF

  // ----- numbers

  predicate NoDivisor(q: nat, x: nat) {
    x <= 1 || (q % x != 0 && NoDivisor(q, x - 1))
  }

  predicate Prime(q: nat) {
    q > 1 && NoDivisor(q, q - 1)
  }

  lemma {:induction false} NoDivisorBelow(q: nat, x: nat, d: nat)
    requires NoDivisor(q, x) && 1 < d <= x
    ensures q % d != 0
  {
    if d < x {
      NoDivisorBelow(q, x - 1, d);
    }
  }

  lemma MultipleOf(a: int, q: nat)
    requires q > 0
    ensures a * q % q == 0 && a * q / q == a
  {
    if a >= 0 {
      ModUnique(a * q, q, a, 0);
    } else {
      Negated(a * q, a, q);
    }
  }

  lemma Negated(x: int, a: int, q: nat)
    requires q > 0 && x == a * q
    ensures x % q == 0 && x / q == a
  {
    var d, r := x / q, x % q;
    assert x == d * q + r;
    assert (a - d) * q == r by {
      Distribute(a, -d, q);
    }
    SmallMultiple(a - d, q);
  }

  /** A common divisor of two numbers as a combination of them. */
  lemma {:induction false} Bezout(a: nat, b: nat) returns (g: nat, s: int, t: int)
    requires a > 0
    ensures g > 0 && g == s * a + t * b
    ensures a % g == 0 && b % g == 0
    decreases a
  {
    if b % a == 0 {
      g, s, t := a, 1, 0;
      MultipleOf(1, a);
    } else {
      var g', s', t' := Bezout(b % a, a);
      g := g';
      var k := b / a;
      s, t := t' - s' * k, s';
      Combination(a, b, k, s', t');
      DividesSum(a, b, k, g);
    }
  }

  lemma Combination(a: nat, b: nat, k: nat, s: int, t: int)
    requires a > 0 && k == b / a
    ensures s * (b % a) + t * a == (t - s * k) * a + s * b
  {
    DivMod(b, a);
    assert b % a == b - a * k;
    calc {
      s * (b % a) + t * a;
      s * (b - a * k) + t * a;
      s * b - s * (a * k) + t * a;
      { MulAssoc3(s, k, a); }
      s * b - (s * k) * a + t * a;
      { Distribute(t, -(s * k), a); }
      (t - s * k) * a + s * b;
    }
  }

  lemma DividesSum(a: nat, b: nat, k: nat, g: nat)
    requires a > 0 && k == b / a && g > 0 && a % g == 0 && (b % a) % g == 0
    ensures b % g == 0
  {
    DivMod(b, a);
    DivMod(a, g);
    DivMod(b % a, g);
    SumOfMultiples(a, b % a, k, g, a / g, b % a / g);
  }

  lemma SumOfMultiples(a: nat, c: nat, k: nat, g: nat, u: nat, v: nat)
    requires g > 0 && a == g * u && c == g * v
    ensures (a * k + c) % g == 0
  {
    MulAssoc3(g, u, k);
    Distribute(u * k, v, g);
    MultipleOf(u * k + v, g);
  }

  /** Euclid's lemma. */
  lemma PrimeDivides(q: nat, a: nat, b: nat)
    requires Prime(q) && a * b % q == 0 && b % q != 0
    ensures a % q == 0
  {
    var g, s, t := Bezout(b, q);
    CommonWithPrime(q, b, g);
    DivMod(a * b, q);
    var c := a * b / q;
    calc {
      a;
      a * (s * b + t * q);
      a * (s * b) + a * (t * q);
      { MulAssoc3(a, s, b); MulAssoc3(s, a, b); MulAssoc3(a, t, q); }
      s * (a * b) + (a * t) * q;
      s * (q * c) + (a * t) * q;
      { MulAssoc3(s, c, q); Distribute(s * c, a * t, q); }
      (s * c + a * t) * q;
    }
    MultipleOf(s * c + a * t, q);
  }

  lemma CommonWithPrime(q: nat, b: nat, g: nat)
    requires Prime(q) && g > 0 && q % g == 0 && b % g == 0 && b % q != 0
    ensures g == 1
  {
    if g > q {
      ModUnique(q, g, 0, q);
    } else if 1 < g < q {
      NoDivisorBelow(q, q - 1, g);
    }
  }

  function Product(qs: seq<nat>): nat {
    if |qs| == 0 then 1 else qs[0] * Product(qs[1..])
  }

  predicate AllPrime(qs: seq<nat>) {
    forall i :: 0 <= i < |qs| ==> Prime(qs[i])
  }

  /** A divisor above one of a product of primes has one of them as a divisor. */
  lemma {:induction false} PrimeFactor(g: nat, k: nat, qs: seq<nat>) returns (i: nat)
    requires AllPrime(qs) && g * k == Product(qs) && k > 1
    ensures i < |qs| && k % qs[i] == 0
    decreases |qs|
  {
    hide Prime;
    if |qs| == 0 {
      OneFactor(g, k);
      return;
    }
    var q, rest := qs[0], Product(qs[1..]);
    AtLeastTwo(q);
    if k % q == 0 {
      i := 0;
    } else {
      MultipleOf(rest, q);
      PrimeDivides(q, g, k);
      DivMod(g, q);
      MulAssoc3(q, g / q, k);
      Cancel(q, g / q * k, rest);
      i := PrimeFactor(g / q, k, qs[1..]);
      i := i + 1;
    }
  }

  lemma AtLeastTwo(q: nat)
    requires Prime(q)
    ensures q > 1
  {
  }

  lemma OneFactor(g: nat, k: nat)
    requires k > 1
    ensures g * k != 1
  {
    if g > 0 {
      MulMonotone(1, g, k);
    }
  }

  lemma Cancel(q: nat, x: int, y: int)
    requires q > 0 && q * x == q * y
    ensures x == y
  {
    MultipleOf(x, q);
    MultipleOf(y, q);
  }

  // ----- exponents whose power is one

  predicate IsUnit(p: nat, size: nat, n: nat)
    requires size > 0
  {
    Power(p, size, n) == 1
  }

  lemma UnitDifference(p: nat, size: nat, a: nat, b: nat)
    requires size > 0 && a <= b && IsUnit(p, size, a)
    ensures IsUnit(p, size, b) == IsUnit(p, size, b - a)
  {
    hide Step, Steps;
    StepsAdd(p, size, b - a, a, 1);
  }

  lemma {:induction false} UnitMultiple(p: nat, size: nat, a: nat, k: nat)
    requires size > 0 && IsUnit(p, size, a)
    ensures IsUnit(p, size, a * k)
  {
    if k == 0 {
      assert Power(p, size, 0) == 1;
      assert a * k == 0;
    } else {
      hide IsUnit;
      UnitMultiple(p, size, a, k - 1);
      Distribute(k - 1, 1, a);
      assert a * k == a * (k - 1) + a;
      UnitDifference(p, size, a, a * k);
    }
  }

  lemma {:induction false} CommonUnit(p: nat, size: nat, a: nat, b: nat) returns (g: nat)
    requires size > 0 && a > 0 && IsUnit(p, size, a) && IsUnit(p, size, b)
    ensures 0 < g <= a && a % g == 0 && b % g == 0 && IsUnit(p, size, g)
    decreases a
  {
    hide IsUnit;
    if b % a == 0 {
      g := a;
      MultipleOf(1, a);
    } else {
      DivMod(b, a);
      UnitMultiple(p, size, a, b / a);
      UnitDifference(p, size, a * (b / a), b);
      g := CommonUnit(p, size, b % a, a);
      DividesSum(a, b, b / a, g);
    }
  }

  /** What is checked: the primes from index i on have the product k, and for none is the power at n / q one. */
  predicate Certified(p: nat, size: nat, n: nat, qs: seq<nat>, i: nat, k: nat)
    requires size > 0 && i <= |qs|
  {
    && AllPrime(qs[i..]) && k == Product(qs[i..])
    && forall j :: i <= j < |qs| && qs[j] > 0 ==> !IsUnit(p, size, n / qs[j])
  }

  lemma NoPrimes(p: nat, size: nat, n: nat, qs: seq<nat>)
    requires size > 0
    ensures Certified(p, size, n, qs, |qs|, 1)
  {
  }

  lemma OnePrime(p: nat, size: nat, n: nat, qs: seq<nat>, i: nat, k: nat, q: nat)
    requires size > 0 && i < |qs| && Certified(p, size, n, qs, i + 1, k)
    requires qs[i] == q > 0 && Prime(q) && !IsUnit(p, size, n / q)
    ensures Certified(p, size, n, qs, i, q * k)
  {
    hide IsUnit, Prime;
    assert qs[i..][1..] == qs[i + 1..];
    assert forall j :: 0 < j < |qs[i..]| ==> qs[i..][j] == qs[i + 1..][j - 1];
  }

  lemma NoSmallerUnit(p: nat, size: nat, n: nat, qs: seq<nat>, d: nat)
    requires size > 0 && Certified(p, size, n, qs, 0, n) && IsUnit(p, size, n) && 0 < d < n
    ensures !IsUnit(p, size, d)
  {
    assert qs[0..] == qs;
    hide IsUnit, Prime, Product;
    if IsUnit(p, size, d) {
      var g := CommonUnit(p, size, d, n);
      DivMod(n, g);
      var k := n / g;
      ProperDivisor(n, g, k);
      var i := PrimeFactor(g, k, qs);
      AtLeastTwo(qs[i]);
      UnitAt(p, size, n, g, k, qs[i]);
      assert false;
    }
  }

  lemma UnitAt(p: nat, size: nat, n: nat, g: nat, k: nat, q: nat)
    requires size > 0 && IsUnit(p, size, g) && n == g * k && q > 0 && k % q == 0
    ensures IsUnit(p, size, n / q)
  {
    hide IsUnit;
    QuotientOf(g, k, q);
    UnitMultiple(p, size, g, k / q);
  }

  lemma QuotientOf(g: nat, k: nat, q: nat)
    requires q > 0 && k % q == 0
    ensures g * k / q == g * (k / q)
  {
    var j := k / q;
    assert k == j * q by {
      DivMod(k, q);
    }
    MulAssoc3(g, j, q);
    MultipleOf(g * j, q);
  }

  lemma ProperDivisor(n: nat, g: nat, k: nat)
    requires n == g * k && g < n
    ensures k > 1
  {
  }

  /** The certificate is enough for a field. */
  lemma CertifiedIsPrimitive(p: nat, m: nat, qs: seq<nat>)
    requires m > 0 && p % 2 == 1 && Certified(p, Pow2(m), Pow2(m) - 1, qs, 0, Pow2(m) - 1)
    requires IsUnit(p, Pow2(m), Pow2(m) - 1)
    ensures Primitive(p, Pow2(m), m)
  {
    hide Certified, Step, Steps, Pow2;
    Pow2Next(m - 1);
    var size := Pow2(m);
    forall i: nat, j: nat | i < j < size - 1 ensures Power(p, size, i) != Power(p, size, j) {
      NoSmallerUnit(p, size, size - 1, qs, j - i);
      StepsAdd(p, size, i, j - i, 1);
      StepsLinear(p, m, j - i, 1, 1);
      if Power(p, size, i) == Power(p, size, j) {
        StepsInjective(p, m, i, 1, Power(p, size, j - i));
      }
    }
  }
}
