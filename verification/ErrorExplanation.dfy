// What it takes for a received word to be accepted by the decoder, corrected or not: error positions that explain its
// syndromes (zxing-core/src/ReedSolomonDecoder.cpp:108-141, ReedSolomonDecoder.h:38-45).
module ErrorExplanation {
  import opened BitOps
  import opened GenericGF
  import opened PolyAlgebra
  import opened PolyRoots
  import opened ReedSolomonEncoder
  import opened KeyEquation
  import opened ErrorPattern
  import opened ReedSolomonDecoder

  /** The polynomial whose coefficients are the first n syndromes. */
  ghost function SyndromePoly(f: Field, w: seq<nat>, n: nat): (s: Poly)
    requires InTable(f, n)
    ensures |s| == n
  {
    seq(n, i requires 0 <= i < n => Syndrome(f, w, n - 1 - i))
  }

  /**
   * A solution of the key equation: at least one error and at most half as many as check symbols, rounded up; locator
   * times syndromes is a short evaluator modulo x^n; and the evaluator gives every error a value other than zero.
   */
  ghost predicate Solves(f: Field, w: seq<nat>, n: nat, xs: seq<nat>, e: Poly)
    requires InTable(f, n)
  {
    && Locators(f, xs) && 0 < |xs| <= n - n / 2
    && Canonical(e) && Over(f, e) && |e| <= n / 2 && NoCommonRoot(f, xs, e)
    && ModEq(Times(f, Locator(f, xs), SyndromePoly(f, w, n)), e, n)
  }

  lemma TableSizes(f: Field)
    ensures f.size >= 2 && |f.expTable| == 2 * f.size && |f.logTable| == f.size
  {
    TableRange(f);
  }

  /** The locators are those of positions of a word of this length. */
  ghost predicate Inside(f: Field, xs: seq<nat>, size: nat)
    requires Locators(f, xs)
  {
    TableSizes(f);
    forall i :: 0 <= i < |xs| ==> Log(f, xs[i]) < size
  }

  /** Errors at positions of the word that explain its syndromes. */
  ghost predicate Explains(f: Field, w: seq<nat>, n: nat, xs: seq<nat>, e: Poly)
    requires InTable(f, n)
  {
    Solves(f, w, n, xs, e) && Inside(f, xs, |w|)
  }

  ghost predicate Explained(f: Field, w: seq<nat>, n: nat)
    requires InTable(f, n)
  {
    exists xs, e :: Explains(f, w, n, xs, e)
  }

  // ----- the Euclidean algorithm and the search find a solution if there is one

  lemma NormalizedSyndromes(f: Field, w: seq<nat>, n: nat, p: Poly)
    requires InTable(f, n)
    ensures ModEq(PolyAlgebra.Normalize(SyndromePoly(f, w, n)), SyndromePoly(f, w, n), n)
    ensures ModEq(Times(f, p, PolyAlgebra.Normalize(SyndromePoly(f, w, n))), Times(f, p, SyndromePoly(f, w, n)), n)
  {
    hide Times, SyndromePoly, Coef, PolyAlgebra.Normalize;
    var s := SyndromePoly(f, w, n);
    forall k: nat | k < n ensures Coef(PolyAlgebra.Normalize(s), k) == Coef(s, k) {
      CoefNormalize(s, k);
    }
    ModTimes(f, p, PolyAlgebra.Normalize(s), s, n);
  }

  lemma ModSame(p: Poly, q: Poly, e: Poly, n: nat)
    requires ModEq(p, q, n)
    ensures ModEq(p, e, n) <==> ModEq(q, e, n)
  {
  }

  /** Whatever solves the key equation is what the algorithm hands over. */
  lemma SolutionFound(f: Field, w: seq<nat>, n: nat, xs: seq<nat>, e: Poly, rLast: Poly, r: Poly, tLast: Poly, t: Poly)
    requires InTable(f, n) && Solves(f, w, n, xs, e)
    requires EuclidDone(f, PolyAlgebra.Normalize(SyndromePoly(f, w, n)), n, rLast, r, tLast, t)
    ensures 0 < Coef(t, 0) < f.size
    ensures Times(f, [Inverse(f, Coef(t, 0))], t) == Locator(f, xs)
    ensures Times(f, [Inverse(f, Coef(t, 0))], r) == e
  {
    hide IsField, Times, Over, Locator, Mul, ModEq, EuclidState, Eval, SyndromePoly, NoCommonRoot;
    var s := PolyAlgebra.Normalize(SyndromePoly(f, w, n));
    var l := Locator(f, xs);
    NormalizedSyndromes(f, w, n, l);
    ModSame(Times(f, l, s), Times(f, l, SyndromePoly(f, w, n)), e, n);
    var a := EuclidSolves(f, s, n, rLast, r, tLast, t, xs, e);
    LocatorShape(f, xs);
    ConstantOfTimes(f, [a], l);
    MulOne(f, a);
    Rescale(f, a, l);
    Rescale(f, a, e);
  }

  lemma Rescale(f: Field, a: nat, p: Poly)
    requires 0 < a < f.size && Canonical(p) && Over(f, p)
    ensures Times(f, [Inverse(f, a)], Times(f, [a], p)) == p
  {
    hide IsField, Times, Mul, Inverse, Over;
    var b := Inverse(f, a);
    TimesAssoc(f, [b], [a], p);
    ProductOfConstants(f, b, a);
    MulInverse(f, a);
    TimesOne(f, p);
  }

  lemma ProductOfConstants(f: Field, b: nat, a: nat)
    requires 0 < a < f.size && 0 < b < f.size
    ensures Times(f, [b], [a]) == [Mul(f, b, a)]
  {
    hide IsField, Mul;
    TimesLength(f, [b], [a]);
  }

  /** A polynomial with constant term one and as many listed roots as its degree is their locator. */
  lemma FullyRooted(f: Field, p: Poly, xs: seq<nat>)
    requires Canonical(p) && Over(f, p) && Coef(p, 0) == 1 && Locators(f, xs) && |xs| == |p| - 1
    requires forall i :: 0 <= i < |xs| ==> Eval(f, p, Inverse(f, xs[i])) == 0
    ensures p == Locator(f, xs)
  {
    hide IsField, Times, Mul, Eval, Locator;
    var u := LocatorDivides(f, p, xs);
    LocatorShape(f, xs);
    ConstantFactor(f, u, Locator(f, xs), p);
    ConstantOfTimes(f, u, Locator(f, xs));
    MulOne(f, u[0]);
    assert u == ONE;
    TimesOne(f, Locator(f, xs));
  }

  lemma ScaledConstant(f: Field, t: Poly)
    requires Canonical(t) && Over(f, t) && 0 < Coef(t, 0) < f.size
    ensures var p := Times(f, [Inverse(f, Coef(t, 0))], t);
      Canonical(p) && Over(f, p) && Coef(p, 0) == 1 && |p| <= |t|
  {
    hide IsField, Times, Mul, Inverse, Over;
    var b := Inverse(f, Coef(t, 0));
    OverConstant(f, b);
    OverTimes(f, [b], t);
    ConstantOfTimes(f, [b], t);
    MulInverse(f, Coef(t, 0));
    TimesUpper(f, [b], t);
  }

  lemma OverConstant(f: Field, b: nat)
    requires b < f.size
    ensures Over(f, [b])
  {
  }

  /** If the search finds as many roots as the degree says, and any at all, they solve the key equation. */
  lemma FoundIsSolution(f: Field, w: seq<nat>, n: nat, rLast: Poly, r: Poly, tLast: Poly, t: Poly)
    requires InTable(f, n) && 0 < Coef(t, 0) < f.size
    requires EuclidDone(f, PolyAlgebra.Normalize(SyndromePoly(f, w, n)), n, rLast, r, tLast, t)
    requires var b := Inverse(f, Coef(t, 0));
      0 < |RootLocators(f, Times(f, [b], t), f.size)| == |Times(f, [b], t)| - 1
    ensures var b := Inverse(f, Coef(t, 0));
      Solves(f, w, n, RootLocators(f, Times(f, [b], t), f.size), Times(f, [b], r))
  {
    hide IsField, Times, Over, Locator, Mul, ModEq, EuclidState, Eval, SyndromePoly, RootLocators, Inverse;
    var b := Inverse(f, Coef(t, 0));
    var sigma, omega := Times(f, [b], t), Times(f, [b], r);
    var xs := RootLocators(f, sigma, f.size);
    DoneShape(f, PolyAlgebra.Normalize(SyndromePoly(f, w, n)), n, rLast, r, tLast, t);
    ScaledConstant(f, t);
    RootLocatorsSound(f, sigma, f.size);
    FullyRooted(f, sigma, xs);
    ScaledEvaluator(f, b, r);
    FoundCongruence(f, w, n, rLast, r, tLast, t, b);
    forall i | 0 <= i < |xs| ensures Eval(f, omega, Inverse(f, xs[i])) != 0 {
      var a := Inverse(f, xs[i]);
      assert xs[i] in xs;
      ScaledRoot(f, b, t, a);
      ScaledRoot(f, b, r, a);
      EuclidCoprime(f, PolyAlgebra.Normalize(SyndromePoly(f, w, n)), n, rLast, r, tLast, t, a);
    }
  }

  lemma DoneShape(f: Field, s: Poly, n: nat, rLast: Poly, r: Poly, tLast: Poly, t: Poly)
    requires EuclidDone(f, s, n, rLast, r, tLast, t)
    ensures EuclidState(f, s, n, rLast, r, tLast, t)
    ensures Canonical(t) && Over(f, t) && 0 < |t| <= n - n / 2 + 1
    ensures Canonical(r) && Over(f, r) && |r| <= n / 2
    ensures ModEq(Times(f, t, s), r, n)
  {
    hide Times, Plus, ModEq, Over, IsField;
  }

  lemma ScaledEvaluator(f: Field, b: nat, r: Poly)
    requires 0 < b < f.size && Canonical(r) && Over(f, r)
    ensures Canonical(Times(f, [b], r)) && Over(f, Times(f, [b], r)) && |Times(f, [b], r)| <= |r|
  {
    hide IsField, Times, Over;
    OverConstant(f, b);
    OverTimes(f, [b], r);
    TimesUpper(f, [b], r);
  }

  lemma FoundCongruence(f: Field, w: seq<nat>, n: nat, rLast: Poly, r: Poly, tLast: Poly, t: Poly, b: nat)
    requires InTable(f, n) && 0 < b < f.size && n > 0
    requires EuclidDone(f, PolyAlgebra.Normalize(SyndromePoly(f, w, n)), n, rLast, r, tLast, t)
    ensures ModEq(Times(f, Times(f, [b], t), SyndromePoly(f, w, n)), Times(f, [b], r), n)
  {
    hide IsField, Times, Over, ModEq, EuclidState, SyndromePoly;
    var s := PolyAlgebra.Normalize(SyndromePoly(f, w, n));
    DoneShape(f, s, n, rLast, r, tLast, t);
    ModTimes(f, [b], Times(f, t, s), r, n);
    TimesAssoc(f, [b], t, s);
    NormalizedSyndromes(f, w, n, Times(f, [b], t));
    ModSame(Times(f, Times(f, [b], t), s), Times(f, Times(f, [b], t), SyndromePoly(f, w, n)), Times(f, [b], r), n);
  }

  lemma ScaledRoot(f: Field, b: nat, p: Poly, a: nat)
    requires 0 < b < f.size && Canonical(p) && Over(f, p)
    ensures Eval(f, Times(f, [b], p), a) == 0 <==> Eval(f, p, a) == 0
  {
    hide IsField, Times, Over, Eval, Mul;
    EvalTimes(f, [b], p, a);
    EvalConstant(f, b, a);
    EvalRange(f, p, a);
    MulZeroIff(f, b, Eval(f, p, a));
  }
}
