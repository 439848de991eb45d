// Reed-Solomon decoding (zxing-core/src/ReedSolomonDecoder.cpp).
module ReedSolomonDecoder {
  import opened BitOps
  import opened GenericGF
  import opened PolyAlgebra
  import opened PolyRoots
  import opened GenericGFPoly
  import opened ReedSolomonEncoder
  import opened KeyEquation
  import opened ErrorPattern

  /** true, false, or the runtime_error of the division check. */
  datatype Outcome = Succeeded | Failed | Threw

  /** The state in which the loop stops: r has degree below n/2 and rLast does not. */
  ghost predicate EuclidDone(f: Field, s: Poly, n: nat, rLast: Poly, r: Poly, tLast: Poly, t: Poly) {
    EuclidState(f, s, n, rLast, r, tLast, t) && |r| <= n / 2 < |rLast|
  }

  /** One pass of the loop body. With one check symbol it takes one of the two error exits; with two or
      more it never does. */
  method EuclidIteration(f: Field, ghost s: Poly, R: nat, r: GFPoly, rLast: GFPoly, q: GFPoly, t: GFPoly, tLast: GFPoly)
    returns (outcome: Outcome)
    requires Distinct(r, rLast, q, t, tLast) && q.field == f && |s| > 0 && R > 0
    requires r.field == rLast.field == t.field == tLast.field == f
    requires EuclidState(f, s, R, rLast.coefficients, r.coefficients, tLast.coefficients, t.coefficients)
    requires r.Degree() >= R / 2
    modifies r, rLast, q, t, tLast
    ensures r.field == rLast.field == q.field == t.field == tLast.field == f
    ensures R == 1 ==> outcome == if IsZero(old(r.coefficients)) then Failed else Threw
    ensures R >= 2 ==>
      && outcome == Succeeded
      && EuclidState(f, s, R, rLast.coefficients, r.coefficients, tLast.coefficients, t.coefficients)
      && |rLast.coefficients| > R / 2
      && |r.coefficients| < |old(r.coefficients)|
  {
    hide Times, Plus, Over, IsField, ModEq, Monomial;
    ghost var r0, rLast0, t0, tLast0 := r.coefficients, rLast.coefficients, t.coefficients, tLast.coefficients;
    GFPoly.Swap(tLast, t);
    GFPoly.Swap(rLast, r);
    if rLast.IsZeroPoly() {
      return Failed;
    }
    var divided := r.Divide(rLast, q);
    ghost var q0, r1 := q.coefficients, r.coefficients;
    q.MultiplyBy(tLast);
    q.AddOrSubtract(t);
    GFPoly.Swap(t, q);
    EuclidStep(f, s, R, rLast0, r0, tLast0, t0, q0, r1, t.coefficients);
    if r.Degree() >= rLast.Degree() {
      return Threw;
    }
    outcome := Succeeded;
  }

  /** Extended Euclidean algorithm on x^R and the syndromes, stopped half way. `sigma` and `omega` hold t and
      tLast during the loop, as in the source. */
  method RunEuclideanAlgorithm(f: Field, rCoefs: seq<nat>, sigma: GFPoly, omega: GFPoly)
    returns (outcome: Outcome, ghost rLast0: Poly, ghost r0: Poly, ghost tLast0: Poly, ghost t0: Poly)
    requires sigma != omega && |rCoefs| > 0 && Over(f, rCoefs)
    modifies sigma, omega
    ensures outcome == Threw <==> |rCoefs| == 1 && rCoefs[0] != 0
    ensures |rCoefs| >= 2 ==> EuclidDone(f, PolyAlgebra.Normalize(rCoefs), |rCoefs|, rLast0, r0, tLast0, t0)
    ensures |rCoefs| >= 2 ==> (outcome == Succeeded <==> Coef(t0, 0) != 0)
    ensures outcome == Succeeded ==>
      && |rCoefs| >= 2
      && sigma.Valid() && omega.Valid() && sigma.field == f && omega.field == f
      && 0 < Coef(t0, 0) < f.size
      && sigma.coefficients == Times(f, [Inverse(f, Coef(t0, 0))], t0)
      && omega.coefficients == Times(f, [Inverse(f, Coef(t0, 0))], r0)
  {
    hide Times, Plus, Over, IsField, ModEq, Monomial, PolyAlgebra.Normalize;
    rLast0, r0, tLast0, t0 := [], [], [], [];
    var R := |rCoefs|;
    var r := new GFPoly.FromCoefficients(f, rCoefs);
    ghost var s := r.coefficients;
    var tLast, t := omega, sigma;
    tLast.SetField(f);
    t.SetField(f);
    var q := new GFPoly();
    var rLast := new GFPoly();
    rLast.SetField(f);
    q.SetField(f);
    rLast.SetMonomial(1, R);
    tLast.SetMonomial(0, 0);
    t.SetMonomial(1, 0);
    StartingPoint(f, s, R);
    // the swap that the source guards here is never needed
    assert r.Degree() < rLast.Degree();
    while r.Degree() >= R / 2
      invariant Distinct(r, rLast, q, t, tLast)
      invariant r.field == rLast.field == q.field == t.field == tLast.field == f
      invariant EuclidState(f, s, R, rLast.coefficients, r.coefficients, tLast.coefficients, t.coefficients)
      invariant |rLast.coefficients| > R / 2
      invariant R == 1 ==> r.coefficients == s
      decreases |r.coefficients|
    {
      outcome := EuclidIteration(f, s, R, r, rLast, q, t, tLast);
      if outcome != Succeeded {
        return;
      }
    }
    rLast0, r0, tLast0, t0 := rLast.coefficients, r.coefficients, tLast.coefficients, t.coefficients;
    var sigmaTildeAtZero := t.Constant();
    if sigmaTildeAtZero == 0 {
      outcome := Failed;
      return;
    }
    OverAt(f, t0, |t0| - 1);
    var inverse := Inverse(f, sigmaTildeAtZero);
    assert Monomial(inverse, 0) == [inverse] by {
      MonomialIsList(inverse, 0);
    }
    t.MultiplyByMonomial(inverse, 0);
    r.MultiplyByMonomial(inverse, 0);
    omega.coefficients := r.coefficients;
    outcome := Succeeded;
  }

  predicate Distinct(a: GFPoly, b: GFPoly, c: GFPoly, d: GFPoly, e: GFPoly) {
    a != b && a != c && a != d && a != e && b != c && b != d && b != e && c != d && c != e && d != e
  }

  lemma StartingPoint(f: Field, s: Poly, n: nat)
    requires Canonical(s) && Over(f, s) && |s| <= n
    ensures EuclidState(f, s, n, Monomial(1, n), s, Monomial(0, 0), Monomial(1, 0))
    ensures |Monomial(1, n)| == n + 1
  {
    EuclidStart(f, s, n);
    assert Monomial(0, 0) == ZERO && Monomial(1, 0) == ONE;
  }

  // ----- Chien search

  /** The locators of the roots of p among 1 .. i-1, in the order the search meets them. */
  ghost function RootLocators(f: Field, p: Poly, i: nat): seq<nat>
    requires i <= f.size
  {
    if i <= 1 then []
    else RootLocators(f, p, i - 1) + (if Eval(f, p, i - 1) == 0 then [Inverse(f, i - 1)] else [])
  }

  lemma {:induction false} RootLocatorsSound(f: Field, p: Poly, i: nat)
    requires i <= f.size
    ensures Locators(f, RootLocators(f, p, i))
    ensures forall x :: x in RootLocators(f, p, i) ==>
              0 < x < f.size && Inverse(f, x) < i && Eval(f, p, Inverse(f, x)) == 0
  {
    hide Eval, IsField, Inverse;
    if i > 1 {
      RootLocatorsSound(f, p, i - 1);
      InverseInvolution(f, i - 1);
    }
  }

  lemma {:induction false} RootLocatorsComplete(f: Field, p: Poly, i: nat, x: nat)
    requires i <= f.size && 0 < x < f.size && Inverse(f, x) < i && Eval(f, p, Inverse(f, x)) == 0
    ensures x in RootLocators(f, p, i)
  {
    hide Eval, IsField, Inverse;
    InverseInvolution(f, x);
    if Inverse(f, x) < i - 1 {
      RootLocatorsComplete(f, p, i - 1, x);
    }
  }

  lemma {:induction false} RootLocatorsGrow(f: Field, p: Poly, i: nat, j: nat)
    requires i <= j <= f.size
    ensures RootLocators(f, p, i) <= RootLocators(f, p, j)
    decreases j
  {
    hide Eval, IsField, Inverse;
    if i < j {
      RootLocatorsGrow(f, p, i, j - 1);
    }
  }

  /** A nonzero polynomial has at most as many roots as its degree. */
  lemma RootBound(f: Field, p: Poly, xs: seq<nat>)
    requires Canonical(p) && Over(f, p) && !IsZero(p) && Locators(f, xs)
    requires forall i :: 0 <= i < |xs| ==> Eval(f, p, Inverse(f, xs[i])) == 0
    ensures |xs| <= |p| - 1
  {
    hide Times, Eval, IsField, Over;
    var u := LocatorDivides(f, p, xs);
    LocatorShape(f, xs);
    TimesZero(f, Locator(f, xs));
    assert IsZero(u) ==> u == ZERO;
    TimesLength(f, u, Locator(f, xs));
  }

  /** All error locators if there are as many roots as the degree says, and nothing otherwise. */
  method FindErrorLocations(f: Field, errorLocator: GFPoly) returns (res: seq<nat>)
    requires errorLocator.Valid() && errorLocator.field == f
    ensures Locators(f, res) && |res| <= |errorLocator.coefficients| - 1
    ensures !IsZero(errorLocator.coefficients) ==>
      var all := RootLocators(f, errorLocator.coefficients, f.size);
      res == if |all| == |errorLocator.coefficients| - 1 then all else []
  {
    hide Eval, IsField, Inverse;
    TableRange(f);
    ghost var p := errorLocator.coefficients;
    var numErrors := errorLocator.Degree();
    res := [];
    var i := 1;
    while i < f.size && |res| < numErrors
      invariant 1 <= i <= f.size
      invariant res == RootLocators(f, p, i)
      invariant |res| <= numErrors
    {
      var value := errorLocator.EvaluateAt(i);
      if value == 0 {
        res := res + [Inverse(f, i)];
      }
      i := i + 1;
    }
    RootLocatorsSound(f, p, i);
    RootLocatorsGrow(f, p, i, f.size);
    if !IsZero(p) {
      RootLocatorsSound(f, p, f.size);
      RootBound(f, p, RootLocators(f, p, f.size));
    }
    if |res| != numErrors {
      return [];
    }
  }

  // ----- Forney's formula

  /** The product of 1 - xs[j] / xs[i] over j < n other than i, as a value of a locator polynomial. */
  ghost function Denominator(f: Field, xs: seq<nat>, i: nat, n: nat): nat
    requires Locators(f, xs) && i < |xs| && n <= |xs|
  {
    Eval(f, Locator(f, if i < n then Without(xs[..n], i) else xs[..n]), Inverse(f, xs[i]))
  }

  lemma DenominatorStep(f: Field, xs: seq<nat>, i: nat, n: nat)
    requires Locators(f, xs) && i < |xs| && n < |xs|
    ensures Denominator(f, xs, i, 0) == 1
    ensures Denominator(f, xs, i, n + 1) ==
            if i == n then Denominator(f, xs, i, n)
            else Mul(f, Denominator(f, xs, i, n), Xor(1, Mul(f, xs[n], Inverse(f, xs[i]))))
  {
    hide Times, Mul, Xor, IsField, Inverse;
    var a := Inverse(f, xs[i]);
    EvalConstant(f, 1, a);
    assert xs[..0] == [];
    hide Eval;
    if i == n {
      assert Without(xs[..n + 1], i) == xs[..n];
    } else {
      EvalLinear(f, xs[n], a);
      MulComm(f, a, xs[n]);
      XorComm(Mul(f, xs[n], a), 1);
      if i < n {
        assert Without(xs[..n + 1], i) == Without(xs[..n], i) + [xs[n]];
        LocatorUnfold(f, Without(xs[..n], i), xs[n], a);
      } else {
        assert xs[..n + 1] == xs[..n] + [xs[n]];
        LocatorUnfold(f, xs[..n], xs[n], a);
      }
    }
  }

  lemma DenominatorRange(f: Field, xs: seq<nat>, i: nat)
    requires Locators(f, xs) && i < |xs|
    ensures 0 < Denominator(f, xs, i, |xs|) < f.size
  {
    hide Times, IsField, Inverse, Eval, Over;
    assert xs[..|xs|] == xs;
    var others := Without(xs, i);
    WithoutLocators(f, xs, i);
    LocatorShape(f, others);
    LocatorRoot(f, others, xs[i]);
    EvalRange(f, Locator(f, others), Inverse(f, xs[i]));
  }

  ghost function Magnitude(f: Field, evaluator: Poly, xs: seq<nat>, i: nat): nat
    requires Locators(f, xs) && i < |xs|
  {
    DenominatorRange(f, xs, i);
    var xiInverse := Inverse(f, xs[i]);
    var m := Mul(f, Eval(f, evaluator, xiInverse), Inverse(f, Denominator(f, xs, i, |xs|)));
    if f.generatorBase != 0 then Mul(f, m, xiInverse) else m
  }

  method FindErrorMagnitudes(f: Field, errorEvaluator: GFPoly, errorLocations: seq<nat>) returns (res: seq<nat>)
    requires errorEvaluator.Valid() && errorEvaluator.field == f && Locators(f, errorLocations)
    ensures |res| == |errorLocations|
    ensures forall i :: 0 <= i < |res| ==>
      res[i] < f.size && res[i] == Magnitude(f, errorEvaluator.coefficients, errorLocations, i)
  {
    hide Mul, Xor, IsField, Inverse, Eval, Denominator;
    TableRange(f);
    var s := |errorLocations|;
    res := [];
    for i := 0 to s
      invariant |res| == i
      invariant forall k :: 0 <= k < i ==>
        res[k] < f.size && res[k] == Magnitude(f, errorEvaluator.coefficients, errorLocations, k)
    {
      var xiInverse := Inverse(f, errorLocations[i]);
      var denom := 1;
      DenominatorStep(f, errorLocations, i, 0);
      for j := 0 to s
        invariant denom < f.size
        invariant denom == Denominator(f, errorLocations, i, j)
      {
        DenominatorStep(f, errorLocations, i, j);
        if i != j {
          XorInRange(f, 1, Multiply(f, errorLocations[j], xiInverse));
          denom := Multiply(f, denom, Xor(1, Multiply(f, errorLocations[j], xiInverse)));
        }
      }
      DenominatorRange(f, errorLocations, i);
      var value := errorEvaluator.EvaluateAt(xiInverse);
      EvalRange(f, errorEvaluator.coefficients, xiInverse);
      var m := Multiply(f, value, Inverse(f, denom));
      if f.generatorBase != 0 {
        m := Multiply(f, m, xiInverse);
      }
      res := res + [m];
    }
  }
}
