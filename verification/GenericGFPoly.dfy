// In-place polynomial arithmetic (zxing-core/src/GenericGFPoly.h and GenericGFPoly.cpp).
module GenericGFPoly {
  import opened BitOps
  import opened GenericGF
  import opened PolyAlgebra
  import opened PolyRoots

  /** The missing field of a default-constructed polynomial. */
  const NO_FIELD := GF(0, 0, [], [])

  class GFPoly {
    var field: GF
    var coefficients: seq<nat>
    var cache: seq<nat>

    /** The object represents a polynomial over its field. */
    ghost predicate Valid()
      reads this
    {
      IsField(field) && Canonical(coefficients) && Over(field, coefficients)
    }

    constructor ()
      ensures field == NO_FIELD && coefficients == []
    {
      field := NO_FIELD;
      coefficients := [];
      cache := [];
    }

    constructor FromCoefficients(f: Field, coefs: seq<nat>)
      requires |coefs| > 0 && Over(f, coefs)
      ensures Valid() && field == f && coefficients == PolyAlgebra.Normalize(coefs)
    {
      field := f;
      coefficients := coefs;
      cache := [];
      new;
      Normalize();
      OverNormalize(f, coefs);
    }

    method SetField(f: GF)
      modifies this`field
      ensures field == f
    {
      field := f;
    }

    function Degree(): int
      reads this
    {
      |coefficients| - 1
    }

    predicate IsZeroPoly()
      requires |coefficients| > 0
      reads this
    {
      coefficients[0] == 0
    }

    function Constant(): nat
      requires |coefficients| > 0
      reads this
    {
      coefficients[|coefficients| - 1]
    }

    method SetMonomial(coefficient: nat, degree: nat)
      requires coefficient != 0 || degree == 0
      modifies this`coefficients
      ensures coefficients == Monomial(coefficient, degree)
    {
      coefficients := Zeros(degree + 1);
      coefficients := coefficients[0 := coefficient];
    }

    static method Swap(a: GFPoly, b: GFPoly)
      modifies a`field, a`coefficients, b`field, b`coefficients
      ensures a.field == old(b.field) && a.coefficients == old(b.coefficients)
      ensures b.field == old(a.field) && b.coefficients == old(a.coefficients)
    {
      a.field, b.field := b.field, a.field;
      a.coefficients, b.coefficients := b.coefficients, a.coefficients;
    }

    /** Strips leading zero coefficients in place. */
    method Normalize()
      requires |coefficients| > 0
      modifies this`coefficients
      ensures coefficients == PolyAlgebra.Normalize(old(coefficients))
    {
      var firstNonZero := FindNonZero(coefficients, 0);
      NormalizeSkipsZeros(coefficients, firstNonZero);
      if firstNonZero != 0 {
        if firstNonZero == |coefficients| {
          coefficients := [0];
        } else {
          coefficients := coefficients[firstNonZero..];
        }
      }
    }

    /** Horner evaluation, with the two shortcuts of the source. */
    method EvaluateAt(a: nat) returns (result: nat)
      requires Valid() && a < field.size
      ensures result == Eval(field, coefficients, a)
    {
      hide Xor, Mul;
      var f: Field := field;
      TableRange(f);
      if a == 0 {
        MulZero(f, Eval(f, coefficients[..|coefficients| - 1], 0));
        XorZero(Constant());
        return Constant();
      }
      if a == 1 {
        result := 0;
        for i := 0 to |coefficients|
          invariant result == Eval(f, coefficients[..i], 1)
        {
          EvalRange(f, coefficients[..i], 1);
          MulOne(f, result);
          assert coefficients[..i + 1][..i] == coefficients[..i];
          result := Xor(result, coefficients[i]);
        }
        assert coefficients[..|coefficients|] == coefficients;
        return;
      }
      result := coefficients[0];
      assert coefficients[..1][..0] == [];
      MulZero(f, a);
      XorZero(coefficients[0]);
      for i := 1 to |coefficients|
        invariant result == Eval(f, coefficients[..i], a)
      {
        EvalRange(f, coefficients[..i], a);
        assert coefficients[..i + 1][..i] == coefficients[..i];
        result := Xor(Multiply(f, a, result), coefficients[i]);
      }
      assert coefficients[..|coefficients|] == coefficients;
    }

    /** this += other; the operands may trade buffers, so `other` is left with one of the two inputs. */
    method AddOrSubtract(other: GFPoly)
      requires Valid() && other.Valid() && field == other.field
      modifies this`field, this`coefficients, other`field, other`coefficients
      ensures Valid() && other.Valid() && field == other.field == old(field)
      ensures coefficients == Plus(old(coefficients), old(other.coefficients))
      ensures other != this ==>
        other.coefficients ==
          if IsZero(old(coefficients)) || |old(other.coefficients)| > |old(coefficients)|
          then old(coefficients) else old(other.coefficients)
    {
      hide Xor, Plus, IsField, Over, RawSum, PolyAlgebra.Normalize, Coef;
      ghost var p, q := coefficients, other.coefficients;
      ghost var f: Field := field;
      OverPlus(f, p, q);
      PlusZero(p);
      PlusZero(q);
      PlusComm(p, q);
      if IsZeroPoly() {
        assert p == ZERO;
        Swap(this, other);
        return;
      }
      if other.IsZeroPoly() {
        assert q == ZERO;
        return;
      }
      if |other.coefficients| > |coefficients| {
        coefficients, other.coefficients := other.coefficients, coefficients;
      }
      ghost var larger, smaller := coefficients, other.coefficients;
      var lengthDiff := |coefficients| - |other.coefficients|;
      for i := lengthDiff to |coefficients|
        invariant |coefficients| == |larger| && |other.coefficients| == |smaller|
        invariant other != this ==> other.coefficients == smaller
        invariant other.field == field == f
        invariant forall j :: 0 <= j < lengthDiff || i <= j < |larger| ==> coefficients[j] == larger[j]
        invariant forall j :: lengthDiff <= j < i ==> coefficients[j] == Xor(larger[j], smaller[j - lengthDiff])
      {
        coefficients := coefficients[i := Xor(coefficients[i], other.coefficients[i - lengthDiff])];
      }
      SumOfAligned(larger, smaller, coefficients);
      Normalize();
      PlusIsNormalizedSum(larger, smaller);
    }

    /** this *= other, through the cache buffer. */
    method MultiplyBy(other: GFPoly)
      requires Valid() && other.Valid() && field == other.field
      modifies this`coefficients, this`cache
      ensures Valid() && field == old(field)
      ensures coefficients == Times(field, old(coefficients), old(other.coefficients))
    {
      hide Xor, Mul, Conv, IsField, Times, RawProduct, PrefixProduct, PolyAlgebra.Normalize, Coef, Multiply;
      ghost var f: Field := field;
      ghost var a, b := coefficients, other.coefficients;
      TimesZero(f, a);
      TimesZero(f, b);
      OverTimes(f, a, b);
      if IsZeroPoly() || other.IsZeroPoly() {
        assert IsZeroPoly() ==> a == ZERO;
        assert other.IsZeroPoly() ==> b == ZERO;
        SetMonomial(0, 0);
        assert coefficients == ZERO;
        return;
      }
      cache := Zeros(|coefficients| + |other.coefficients| - 1);
      EmptyPrefixProduct(f, a, b);
      for i := 0 to |coefficients|
        invariant coefficients == a && other.coefficients == b && field == f
        invariant cache == PrefixProduct(f, a, b, i)
      {
        var j := 0;
        ghost var row := cache;
        while j < |other.coefficients|
          invariant 0 <= j <= |b|
          invariant coefficients == a && other.coefficients == b && field == f
          invariant |cache| == |a| + |b| - 1
          invariant forall k :: 0 <= k < |cache| ==>
            cache[k] == if i <= k < i + j then Xor(row[k], Multiply(f, a[i], b[k - i])) else row[k]
        {
          cache := cache[i + j := Xor(cache[i + j], Multiply(field, coefficients[i], other.coefficients[j]))];
          j := j + 1;
        }
        PrefixProductStep(f, a, b, i, row, cache);
      }
      FullPrefixProduct(f, a, b);
      TimesIsNormalizedProduct(f, a, b);
      coefficients, cache := cache, coefficients;
      Normalize();
    }

    /** this *= coefficient * x^degree. */
    method MultiplyByMonomial(coefficient: nat, degree: nat)
      requires Valid() && coefficient < field.size
      modifies this`coefficients
      ensures Valid() && field == old(field)
      ensures coefficients == Times(field, Monomial(coefficient, degree), old(coefficients))
    {
      hide Xor, Mul, Times, Monomial;
      ghost var f: Field := field;
      ghost var p := coefficients;
      TimesMonomial(f, coefficient, degree, p);
      OverTimes(f, Monomial(coefficient, degree), p);
      if coefficient == 0 {
        TimesZeroMonomial(f, degree, p);
        SetMonomial(0, 0);
        assert coefficients == ZERO by {
          assert Monomial(0, 0) == ZERO by {
            MonomialIsList(0, 0);
          }
        }
        return;
      }
      for i := 0 to |coefficients|
        invariant |coefficients| == |p| && field == f
        invariant forall j :: 0 <= j < i ==> coefficients[j] == Mul(f, coefficient, p[j])
        invariant forall j :: i <= j < |p| ==> coefficients[j] == p[j]
      {
        MulComm(f, p[i], coefficient);
        coefficients := coefficients[i := Multiply(field, coefficients[i], coefficient)];
      }
      assert coefficients == Scaled(f, coefficient, p);
      coefficients := coefficients + Zeros(degree);
      Normalize();
    }

    /** Synthetic division: the dividend's buffer moves to `quotient`, is overwritten with
        [quotient : remainder], and the remainder is copied back. A zero divisor throws. */
    method Divide(other: GFPoly, quotient: GFPoly) returns (ok: bool)
      requires Valid() && other.Valid() && field == other.field
      requires this != other && this != quotient && other != quotient
      modifies this`field, this`coefficients, quotient`field, quotient`coefficients
      ensures ok <==> !IsZero(other.coefficients)
      ensures !ok ==> coefficients == old(coefficients) && quotient.coefficients == old(quotient.coefficients)
      ensures !ok ==> field == old(field) && quotient.field == old(quotient.field)
      ensures ok ==> Valid() && quotient.Valid() && field == quotient.field == old(field)
      ensures ok ==> IsDivision(field, old(coefficients), other.coefficients, quotient.coefficients, coefficients)
    {
      hide Xor, Mul, Conv, Times, Plus, IsField, Multiply, PolyAlgebra.Normalize, Monomial, Coef,
           Quotients, InverseOrZero;
      ghost var f: Field := field;
      ghost var a, b := coefficients, other.coefficients;
      TableRange(f);
      if other.IsZeroPoly() {
        return false;
      }
      ok := true;
      quotient.SetField(field);
      if Degree() < other.Degree() {
        quotient.SetMonomial(0, 0);
        DivisionBySomethingLonger(f, a, b);
        return;
      }
      Swap(this, quotient);
      var normalizer := Inverse(field, other.coefficients[0]);
      var steps := |quotient.coefficients| - (|other.coefficients| - 1);
      DivisionStart(f, a, b);
      for i := 0 to steps
        invariant Framed(f, b, other, quotient)
        invariant DividingAt(f, a, b, i, quotient.coefficients)
      {
        ghost var before := quotient.coefficients;
        var ci := quotient.coefficients[i];
        if ci != 0 {
          ci := Multiply(field, ci, normalizer);
          quotient.coefficients := quotient.coefficients[i := ci];
          for j := 1 to |other.coefficients|
            invariant Framed(f, b, other, quotient)
            invariant ReducedUpTo(f, b, before, ci, i, j, quotient.coefficients)
          {
            quotient.coefficients := quotient.coefficients[i + j :=
              Xor(quotient.coefficients[i + j], Multiply(field, other.coefficients[j], ci))];
          }
        }
        DivisionStep(f, a, b, i, before, quotient.coefficients);
      }
      DivisionEnd(f, a, b, quotient.coefficients);
      CopyRemainder(quotient.coefficients, |quotient.coefficients| - other.Degree());
      quotient.coefficients := quotient.coefficients[..|quotient.coefficients| - other.Degree()];
    }

    /** Takes over the tail of the division buffer, without its leading zeros. */
    method CopyRemainder(result: seq<nat>, start: nat)
      requires start <= |result|
      modifies this`coefficients
      ensures coefficients == PolyAlgebra.Normalize(result[start..])
    {
      var firstNonZero := FindNonZero(result, start);
      NormalizeSkipsZeros(result[start..], firstNonZero - start);
      if firstNonZero == |result| {
        SetMonomial(0, 0);
      } else {
        coefficients := result[firstNonZero..];
        assert coefficients == result[start..][firstNonZero - start..];
      }
    }

    ghost predicate Framed(f: GF, b: Poly, other: GFPoly, quotient: GFPoly)
      reads this, other, quotient
    {
      field == f && quotient.field == f && other.field == f && other.coefficients == b
    }
  }

  /** std::find_if for a nonzero entry. */
  method FindNonZero(s: seq<nat>, start: nat) returns (k: nat)
    requires start <= |s|
    ensures start <= k <= |s|
    ensures forall i :: start <= i < k ==> s[i] == 0
    ensures k < |s| ==> s[k] != 0
  {
    k := start;
    while k < |s| && s[k] == 0
      invariant start <= k <= |s|
      invariant forall i :: start <= i < k ==> s[i] == 0
    {
      k := k + 1;
    }
  }

  // ----- facts behind the loops

  lemma {:induction false} NormalizeSkipsZeros(p: Poly, k: nat)
    requires k <= |p| && (forall i :: 0 <= i < k ==> p[i] == 0) && (k < |p| ==> p[k] != 0)
    ensures PolyAlgebra.Normalize(p) == if k == |p| then ZERO else p[k..]
  {
    if k > 0 {
      if |p| > 1 {
        NormalizeSkipsZeros(p[1..], k - 1);
      }
      assert |p| == 1 ==> p == ZERO;
    }
  }

  lemma MonomialIsList(c: nat, n: nat)
    ensures Monomial(c, n) == [c] + Zeros(n)
  {
  }

  lemma TimesZeroMonomial(f: Field, n: nat, p: Poly)
    ensures Times(f, Monomial(0, n), p) == ZERO
  {
    hide Xor, Mul, Times, Conv, Monomial;
    forall k: nat ensures Coef(Times(f, Monomial(0, n), p), k) == Coef(ZERO, k) {
      CoefTimes(f, Monomial(0, n), p, k);
      ConvMonomial(f, 0, n, p, k);
      if k >= n {
        MulZero(f, Coef(p, k - n));
      }
    }
    Extensional(Times(f, Monomial(0, n), p), ZERO);
  }

  /** The first i coefficients of a, with the rest blanked. */
  ghost function Prefix(a: Poly, i: nat): (p: Poly)
    requires i <= |a|
    ensures |p| == |a|
  {
    a[..i] + Zeros(|a| - i)
  }

  ghost function PrefixProduct(f: Field, a: Poly, b: Poly, i: nat): (r: Poly)
    requires |a| > 0 && |b| > 0 && i <= |a|
    ensures |r| == |a| + |b| - 1
  {
    RawProduct(f, Prefix(a, i), b)
  }

  lemma PrefixStep(a: Poly, i: nat, k: nat)
    requires i < |a|
    ensures Coef(Prefix(a, i + 1), k) == Xor(Coef(Prefix(a, i), k), Coef(Monomial(a[i], |a| - 1 - i), k))
  {
    hide Xor;
    XorZero(Coef(Prefix(a, i), k));
    XorZero(a[i]);
  }

  lemma EmptyPrefixProduct(f: Field, a: Poly, b: Poly)
    requires |a| > 0 && |b| > 0
    ensures PrefixProduct(f, a, b, 0) == Zeros(|a| + |b| - 1)
  {
    hide Xor, Mul, Conv;
    var n := |a| + |b| - 1;
    assert Prefix(a, 0) == Monomial(0, |a| - 1);
    forall k: nat | k < n ensures Conv(f, Prefix(a, 0), b, k) == 0 {
      ConvMonomial(f, 0, |a| - 1, b, k);
      if k >= |a| - 1 {
        MulZero(f, Coef(b, k - (|a| - 1)));
      }
    }
    assert forall i :: 0 <= i < n ==> PrefixProduct(f, a, b, 0)[i] == Conv(f, Prefix(a, 0), b, n - 1 - i);
  }

  lemma FullPrefixProduct(f: Field, a: Poly, b: Poly)
    requires |a| > 0 && |b| > 0
    ensures PrefixProduct(f, a, b, |a|) == RawProduct(f, a, b)
  {
    hide Conv;
    assert Prefix(a, |a|) == a;
  }

  lemma PrefixProductStep(f: Field, a: Poly, b: Poly, i: nat, row: Poly, next: Poly)
    requires i < |a| && |b| > 0 && Over(f, a) && Over(f, b)
    requires row == PrefixProduct(f, a, b, i) && |next| == |row|
    requires forall k :: 0 <= k < |row| ==>
               next[k] == if i <= k < i + |b| then Xor(row[k], Multiply(f, a[i], b[k - i])) else row[k]
    ensures next == PrefixProduct(f, a, b, i + 1)
  {
    hide Xor, Mul, Conv, Multiply, Monomial, Prefix;
    var n := |a| + |b| - 1;
    var m := Monomial(a[i], |a| - 1 - i);
    var p, p' := Prefix(a, i), Prefix(a, i + 1);
    forall j | 0 <= j < n ensures next[j] == PrefixProduct(f, a, b, i + 1)[j] {
      var k: nat := n - 1 - j;
      forall l: nat ensures Coef(p', l) == Xor(Coef(p, l), Coef(m, l)) {
        PrefixStep(a, i, l);
      }
      ConvPlusLeft(f, p, m, p', b, k);
      ConvMonomial(f, a[i], |a| - 1 - i, b, k);
      MulZero(f, a[i]);
      XorZero(row[j]);
    }
  }

  // ----- division

  /** The first i coefficients of s, as the quotient found so far, with the rest blanked. */
  ghost function Quotients(s: Poly, i: nat, steps: nat): (q: Poly)
    requires i <= steps && i <= |s|
    ensures |q| == steps
  {
    s[..i] + Zeros(steps - i)
  }

  /** After i steps the dividend is the quotient so far times b plus what is left of the buffer. */
  ghost predicate DividingAt(f: Field, a: Poly, b: Poly, i: nat, s: Poly) {
    && |s| == |a| >= |b| > 0 && i <= |a| - |b| + 1 && Over(f, s)
    && (i > 0 ==> s[0] == Mul(f, a[0], InverseOrZero(f, b[0])))
    && (i == 0 ==> s == a)
    && forall k: nat :: Coef(a, k) == Xor(Conv(f, Quotients(s, i, |a| - |b| + 1), b, k), Coef(s[i..], k))
  }

  function InverseOrZero(f: Field, a: nat): nat {
    if 0 < a < f.size then Inverse(f, a) else 0
  }

  /** Buffer s with row i reduced by c * b up to column j. */
  ghost predicate ReducedUpTo(f: Field, b: Poly, s: Poly, c: nat, i: nat, j: nat, s': Poly)
  {
    && |s'| == |s| && i + |b| <= |s| && 1 <= j <= |b| && s'[i] == c
    && (forall k :: 0 <= k < |s| && k != i && !(i < k < i + j) ==> s'[k] == s[k])
    && (forall k :: i < k < i + j ==> s'[k] == Xor(s[k], Mul(f, b[k - i], c)))
  }

  lemma DivisionBySomethingLonger(f: Field, a: Poly, b: Poly)
    requires Canonical(a) && Over(f, a) && |a| < |b|
    ensures IsDivision(f, a, b, Monomial(0, 0), a)
  {
    hide Times, Plus;
    TableRange(f);
    assert Monomial(0, 0) == ZERO;
    TimesZero(f, b);
    PlusZero(a);
  }

  lemma DivisionStart(f: Field, a: Poly, b: Poly)
    requires Canonical(a) && Over(f, a) && |a| >= |b| > 0
    ensures DividingAt(f, a, b, 0, a)
  {
    hide Xor, Mul, Conv, Monomial;
    var n := |a| - |b|;
    assert Quotients(a, 0, n + 1) == Monomial(0, n) by {
      MonomialIsList(0, n);
    }
    forall k: nat ensures Coef(a, k) == Xor(Conv(f, Quotients(a, 0, n + 1), b, k), Coef(a[0..], k)) {
      ConvMonomial(f, 0, n, b, k);
      if k >= n {
        MulZero(f, Coef(b, k - n));
      }
      XorZero(Coef(a, k));
      assert a[0..] == a;
    }
  }

  /** One quotient coefficient c at power d of the quotient: what the buffer loses is c * x^d * b. */
  lemma RemainderStep(f: Field, b: Poly, s: Poly, c: nat, i: nat, s': Poly, k: nat)
    requires |b| > 0 && ReducedUpTo(f, b, s, c, i, |b|, s') && s[i] == Mul(f, c, b[0])
    ensures Coef(s'[i + 1..], k) ==
            Xor(Coef(s[i..], k), if k < |s| - |b| - i then 0 else Mul(f, c, Coef(b, k - (|s| - |b| - i))))
  {
    hide Xor, Mul;
    var d := |s| - |b| - i;
    var n := |s| - i;
    XorZero(0);
    MulZero(f, c);
    if k >= n {
    } else if k == n - 1 {
      XorSelf(s[i]);
    } else {
      var pos := |s| - 1 - k;
      assert Coef(s'[i + 1..], k) == s'[pos];
      assert Coef(s[i..], k) == s[pos];
      XorZero(s[pos]);
      if k >= d {
        assert Coef(b, k - d) == b[pos - i];
        MulComm(f, c, b[pos - i]);
      }
    }
  }

  lemma QuotientStep(f: Field, s: Poly, s': Poly, i: nat, steps: nat, b: Poly, k: nat)
    requires i < steps <= |s| == |s'| && s'[..i] == s[..i]
    ensures Conv(f, Quotients(s', i + 1, steps), b, k) ==
            Xor(Conv(f, Quotients(s, i, steps), b, k),
                if k < steps - 1 - i then 0 else Mul(f, s'[i], Coef(b, k - (steps - 1 - i))))
  {
    hide Xor, Mul, Conv;
    var d := steps - 1 - i;
    var m := Monomial(s'[i], d);
    var q, q' := Quotients(s, i, steps), Quotients(s', i + 1, steps);
    forall l: nat ensures Coef(q', l) == Xor(Coef(q, l), Coef(m, l)) {
      XorZero(Coef(q, l));
      XorZero(Coef(m, l));
      if d < l < steps {
        assert Coef(q', l) == s'[steps - 1 - l] == s[..i][steps - 1 - l];
      }
    }
    ConvPlusLeft(f, q, m, q', b, k);
    ConvMonomial(f, s'[i], d, b, k);
  }

  lemma DivisionStepAt(f: Field, a: Poly, b: Poly, i: nat, s: Poly, c: nat, s': Poly, k: nat)
    requires |s| == |a| >= |b| > 0 && i <= |a| - |b|
    requires ReducedUpTo(f, b, s, c, i, |b|, s') && s[i] == Mul(f, c, b[0])
    requires Coef(a, k) == Xor(Conv(f, Quotients(s, i, |a| - |b| + 1), b, k), Coef(s[i..], k))
    ensures Coef(a, k) == Xor(Conv(f, Quotients(s', i + 1, |a| - |b| + 1), b, k), Coef(s'[i + 1..], k))
  {
    hide Xor, Mul, Conv, Coef, Quotients;
    var d := |a| - |b| - i;
    assert s'[..i] == s[..i];
    RemainderStep(f, b, s, c, i, s', k);
    QuotientStep(f, s, s', i, |a| - |b| + 1, b, k);
    var t := if k < d then 0 else Mul(f, c, Coef(b, k - d));
    var x, y := Conv(f, Quotients(s, i, |a| - |b| + 1), b, k), Coef(s[i..], k);
    XorExchange(x, t, y, t);
    XorSelf(t);
    XorZero(Xor(x, y));
  }

  lemma DivisionStep(f: Field, a: Poly, b: Poly, i: nat, s: Poly, s': Poly)
    requires Canonical(b) && Over(f, b) && b[0] != 0 && Over(f, a)
    requires DividingAt(f, a, b, i, s) && i <= |a| - |b|
    requires (s[i] == 0 && s' == s) ||
             ReducedUpTo(f, b, s, Mul(f, s[i], Inverse(f, b[0])), i, |b|, s')
    ensures DividingAt(f, a, b, i + 1, s')
  {
    hide Xor, Mul, Conv, Coef, Quotients, Canonical, IsField;
    TableRange(f);
    var v := Inverse(f, b[0]);
    var c := Mul(f, s[i], v);
    MulZero(f, v);
    MulAssoc(f, s[i], v, b[0]);
    MulInverse(f, b[0]);
    MulOne(f, s[i]);
    if s' == s && s[i] == 0 {
      NoReduction(f, b, s, i);
    }
    assert ReducedUpTo(f, b, s, c, i, |b|, s');
    assert Over(f, s') by {
      ReductionOver(f, b, s, c, i, s');
    }
    assert i > 0 ==> s'[0] == s[0];
    forall k: nat
      ensures Coef(a, k) == Xor(Conv(f, Quotients(s', i + 1, |a| - |b| + 1), b, k), Coef(s'[i + 1..], k))
    {
      DivisionStepAt(f, a, b, i, s, c, s', k);
    }
  }

  lemma NoReduction(f: Field, b: Poly, s: Poly, i: nat)
    requires |b| > 0 && i + |b| <= |s| && s[i] == 0
    ensures ReducedUpTo(f, b, s, 0, i, |b|, s)
  {
    hide Xor, Mul;
    forall k | i < k < i + |b| ensures s[k] == Xor(s[k], Mul(f, b[k - i], 0)) {
      MulZero(f, b[k - i]);
      XorZero(s[k]);
    }
  }

  lemma ReductionOver(f: Field, b: Poly, s: Poly, c: nat, i: nat, s': Poly)
    requires |b| > 0 && ReducedUpTo(f, b, s, c, i, |b|, s') && Over(f, s) && c < f.size
    ensures Over(f, s')
  {
    hide Xor, Mul;
    forall k | 0 <= k < |s| ensures s'[k] < f.size {
      if i < k < i + |b| {
        XorInRange(f, s[k], Mul(f, b[k - i], c));
      }
    }
  }

  lemma DivisionEnd(f: Field, a: Poly, b: Poly, s: Poly)
    requires Canonical(a) && Over(f, a) && Canonical(b) && Over(f, b) && b[0] != 0
    requires |a| >= |b| && DividingAt(f, a, b, |a| - |b| + 1, s)
    ensures IsDivision(f, a, b, s[..|a| - |b| + 1], PolyAlgebra.Normalize(s[|a| - |b| + 1..]))
  {
    hide Xor, Mul, Conv, Times, Plus, PolyAlgebra.Normalize, Coef;
    var steps := |a| - |b| + 1;
    var q, r := s[..steps], PolyAlgebra.Normalize(s[steps..]);
    assert Quotients(s, steps, steps) == q;
    OverNormalize(f, s[steps..]);
    if a[0] != 0 {
      MulNonzero(f, a[0], Inverse(f, b[0]));
    }
    assert Canonical(q);
    forall k: nat ensures Coef(a, k) == Coef(Plus(Times(f, q, b), r), k) {
      CoefPlus(Times(f, q, b), r, k);
      CoefTimes(f, q, b, k);
      CoefNormalize(s[steps..], k);
    }
    Extensional(a, Plus(Times(f, q, b), r));
    NormalizeLength(s[steps..]);
  }

  lemma {:induction false} NormalizeLength(p: Poly)
    ensures IsZero(PolyAlgebra.Normalize(p)) || |PolyAlgebra.Normalize(p)| <= |p|
  {
  }

  lemma SumOfAligned(larger: Poly, smaller: Poly, r: Poly)
    requires |r| == |larger| >= |smaller|
    requires forall j :: 0 <= j < |larger| - |smaller| ==> r[j] == larger[j]
    requires forall j :: |larger| - |smaller| <= j < |larger| ==>
               r[j] == Xor(larger[j], smaller[j - (|larger| - |smaller|)])
    ensures r == RawSum(larger, smaller)
  {
    hide Xor;
    forall j | 0 <= j < |r| ensures r[j] == RawSum(larger, smaller)[j] {
      var k := |r| - 1 - j;
      XorZero(larger[j]);
      assert RawSum(larger, smaller)[j] == Xor(Coef(larger, k), Coef(smaller, k));
    }
  }

  lemma TimesIsNormalizedProduct(f: Field, p: Poly, q: Poly)
    requires |p| > 0 && |q| > 0
    ensures Times(f, p, q) == PolyAlgebra.Normalize(RawProduct(f, p, q))
  {
  }

  lemma PlusIsNormalizedSum(p: Poly, q: Poly)
    ensures Plus(p, q) == PolyAlgebra.Normalize(RawSum(p, q))
  {
  }
}
