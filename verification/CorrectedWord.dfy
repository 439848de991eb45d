// The word that the decoder leaves (zxing-core/src/ReedSolomonDecoder.cpp:132-139): what the corrections of a solution
// of the key equation do, and when they make a code word.
module CorrectedWord {
  import opened BitOps
  import opened GenericGF
  import opened PolyAlgebra
  import opened PolyRoots
  import opened ReedSolomonEncoder
  import opened KeyEquation
  import opened ErrorPattern
  import opened ReedSolomonDecoder
  import opened ErrorExplanation

  ghost predicate AreMagnitudes(f: Field, evaluator: Poly, locs: seq<nat>, mags: seq<nat>)
    requires Locators(f, locs)
  {
    |mags| == |locs| && forall i :: 0 <= i < |locs| ==> mags[i] == Magnitude(f, evaluator, locs, i)
  }

  /** Forney's magnitudes for all the errors of a solution. */
  ghost function Magnitudes(f: Field, evaluator: Poly, locs: seq<nat>): (mags: seq<nat>)
    requires Locators(f, locs)
    ensures AreMagnitudes(f, evaluator, locs, mags)
  {
    seq(|locs|, i requires 0 <= i < |locs| => Magnitude(f, evaluator, locs, i))
  }

  lemma MagnitudesAre(f: Field, evaluator: Poly, locs: seq<nat>, mags: seq<nat>)
    requires Locators(f, locs) && AreMagnitudes(f, evaluator, locs, mags)
    ensures mags == Magnitudes(f, evaluator, locs)
  {
  }

  /** The word after the first i corrections; a position before the word stops the source. */
  ghost function Applied(f: Field, w: seq<nat>, locs: seq<nat>, mags: seq<nat>, i: nat): (r: seq<nat>)
    requires Locators(f, locs) && i <= |locs| == |mags| && |f.logTable| == f.size
    ensures |r| == |w|
  {
    if i == 0 then w
    else
      var prev := Applied(f, w, locs, mags, i - 1);
      var position := |w| - 1 - Log(f, locs[i - 1]);
      if position < 0 then prev else prev[position := Xor(prev[position], mags[i - 1])]
  }

  lemma {:induction false} DistanceOneMore(w: seq<nat>, a: seq<nat>, p: nat, v: nat, k: nat)
    requires |w| == |a| && k <= |w| && p < |w|
    ensures Distance(w, a[p := v], k) <= Distance(w, a, k) + (if p < k then 1 else 0)
  {
    if k > 0 {
      DistanceOneMore(w, a, p, v, k - 1);
    }
  }

  lemma {:induction false} AppliedDistance(f: Field, w: seq<nat>, locs: seq<nat>, mags: seq<nat>, i: nat)
    requires Locators(f, locs) && i <= |locs| == |mags| && |f.logTable| == f.size
    ensures Distance(w, Applied(f, w, locs, mags, i), |w|) <= i
  {
    hide IsField, Xor;
    if i == 0 {
      DistanceZero(w, w, |w|);
    } else {
      AppliedDistance(f, w, locs, mags, i - 1);
      var prev := Applied(f, w, locs, mags, i - 1);
      var position := |w| - 1 - Log(f, locs[i - 1]);
      if position >= 0 {
        DistanceOneMore(w, prev, position, Xor(prev[position], mags[i - 1]), |w|);
      }
    }
  }

  // ----- the corrected positions

  /** Position p after all corrections: its locator's magnitude is added if there is one. */
  lemma {:induction false} CorrectedAt(f: Field, w: seq<nat>, locs: seq<nat>, mags: seq<nat>, i: nat, p: nat)
    requires Locators(f, locs) && i <= |locs| == |mags| && |f.logTable| == f.size && |f.expTable| == 2 * f.size
    requires p < |w| < f.size && Inside(f, locs, |w|)
    ensures var r := Applied(f, w, locs, mags, i);
      && (forall j :: 0 <= j < i && locs[j] == Exp(f, |w| - 1 - p) ==> r[p] == Xor(w[p], mags[j]))
      && (Exp(f, |w| - 1 - p) !in locs[..i] ==> r[p] == w[p])
  {
    hide IsField, Xor;
    if i > 0 {
      CorrectedAt(f, w, locs, mags, i - 1, p);
      var x := Exp(f, |w| - 1 - p);
      assert locs[..i] == locs[..i - 1] + [locs[i - 1]];
      ExpLog(f, locs[i - 1]);
      LogExp(f, |w| - 1 - p);
      if locs[i - 1] == x {
        assert |w| - 1 - Log(f, locs[i - 1]) == p;
        assert x !in locs[..i - 1];
      } else {
        assert Log(f, locs[i - 1]) != |w| - 1 - p;
      }
    }
  }

  /** Symbol p of m is that of w with the magnitude of its locator added, if its locator is listed. */
  ghost predicate CorrectsAt(f: Field, w: seq<nat>, xs: seq<nat>, mags: seq<nat>, m: seq<nat>, p: nat)
    requires |xs| == |mags| && |m| == |w| < f.size && p < |w|
  {
    TableSizes(f);
    var x := Exp(f, |w| - 1 - p);
    && (x !in xs ==> m[p] == w[p])
    && (forall j :: 0 <= j < |xs| && xs[j] == x ==> m[p] == Xor(w[p], mags[j]))
  }

  /** The word w with the symbols at the positions of xs corrected by mags, and no others. */
  ghost predicate Corrects(f: Field, w: seq<nat>, xs: seq<nat>, mags: seq<nat>, m: seq<nat>)
    requires |xs| == |mags| && |w| < f.size
  {
    |m| == |w| && forall p :: 0 <= p < |w| ==> CorrectsAt(f, w, xs, mags, m, p)
  }

  lemma AppliedCorrectsAt(f: Field, w: seq<nat>, xs: seq<nat>, mags: seq<nat>, r: seq<nat>, p: nat)
    requires Locators(f, xs) && |xs| == |mags| && Inside(f, xs, |w|) && p < |w| < f.size && |f.logTable| == f.size
    requires r == Applied(f, w, xs, mags, |xs|)
    ensures CorrectsAt(f, w, xs, mags, r, p)
  {
    hide IsField, Xor, Applied;
    TableSizes(f);
    assert xs[..|xs|] == xs;
    CorrectedAt(f, w, xs, mags, |xs|, p);
  }

  lemma AppliedCorrects(f: Field, w: seq<nat>, xs: seq<nat>, mags: seq<nat>)
    requires Locators(f, xs) && |xs| == |mags| && Inside(f, xs, |w|) && |w| < f.size && |f.logTable| == f.size
    ensures Corrects(f, w, xs, mags, Applied(f, w, xs, mags, |xs|))
  {
    var r := Applied(f, w, xs, mags, |xs|);
    forall p | 0 <= p < |w| ensures CorrectsAt(f, w, xs, mags, r, p) {
      AppliedCorrectsAt(f, w, xs, mags, r, p);
    }
    hide *;
  }

  /** Forney's formula for one listing of the errors read off with another. */
  lemma EvaluatorOverDenominator(f: Field, xs: seq<nat>, zs: seq<nat>, k: nat, locs: seq<nat>, i: nat)
    requires Locators(f, xs) && Elements(f, zs) && |xs| == |zs| && k < |xs|
    requires Locators(f, locs) && i < |locs| == |xs| && locs[i] == xs[k]
    requires forall x :: x in locs ==> x in xs
    ensures Eval(f, Evaluator(f, xs, zs), Inverse(f, locs[i])) == Mul(f, zs[k], Denominator(f, locs, i, |locs|))
  {
    hide IsField, Locator, Evaluator, Mul, Eval, Inverse;
    EvaluatorAtRoot(f, xs, zs, k);
    WithoutLocators(f, xs, k);
    WithoutLocators(f, locs, i);
    SubsetWithout(xs, locs, k, i);
    LocatorUnique(f, Without(xs, k), Without(locs, i));
    assert locs[..|locs|] == locs;
  }

  lemma SubsetWithout(xs: seq<nat>, ys: seq<nat>, k: nat, i: nat)
    requires k < |xs| && i < |ys| && xs[k] == ys[i]
    requires forall y :: y in ys ==> y in xs
    requires ys[i] !in Without(ys, i) && forall x :: x in xs && x != xs[k] ==> x in Without(xs, k)
    ensures forall j :: 0 <= j < |Without(ys, i)| ==> Without(ys, i)[j] in Without(xs, k)
  {
    var v := Without(ys, i);
    forall j | 0 <= j < |v| ensures v[j] in Without(xs, k) {
      assert v[j] in v && v[j] in ys;
    }
  }

  ghost function Elems(s: seq<nat>): set<nat> {
    set x | x in s
  }

  lemma {:induction false} SetOfDistinct(s: seq<nat>)
    requires forall i, j :: 0 <= i < j < |s| ==> s[i] != s[j]
    ensures |Elems(s)| == |s|
  {
    if |s| > 0 {
      var n := |s| - 1;
      SetOfDistinct(s[..n]);
      assert Elems(s) == Elems(s[..n]) + {s[n]};
    } else {
      assert Elems(s) == {};
    }
  }

  lemma SameLength(s: seq<nat>, t: seq<nat>)
    requires forall i, j :: 0 <= i < j < |s| ==> s[i] != s[j]
    requires forall i, j :: 0 <= i < j < |t| ==> t[i] != t[j]
    requires (forall x :: x in s ==> x in t) && (forall x :: x in t ==> x in s)
    ensures |s| == |t|
  {
    SetOfDistinct(s);
    SetOfDistinct(t);
    assert Elems(s) == Elems(t);
  }

  // ----- the errors between the corrected and the received word

  ghost predicate AllNonzero(f: GF, mags: seq<nat>) {
    forall j :: 0 <= j < |mags| ==> 0 < mags[j] < f.size
  }

  /** A corrected position differs. */
  lemma CorrectedDiffers(f: Field, w: seq<nat>, xs: seq<nat>, mags: seq<nat>, m: seq<nat>, j: nat)
    requires Locators(f, xs) && |xs| == |mags| && Inside(f, xs, |w|) && |w| < f.size && Corrects(f, w, xs, mags, m)
    requires Over(f, w) && AllNonzero(f, mags) && j < |xs|
    ensures |f.logTable| == f.size && Log(f, xs[j]) < |w|
    ensures var p := |w| - 1 - Log(f, xs[j]);
      m[p] != w[p] && m[p] < f.size && Xor(m[p], w[p]) == mags[j]
  {
    hide IsField, Xor;
    TableSizes(f);
    var p := |w| - 1 - Log(f, xs[j]);
    ExpLog(f, xs[j]);
    assert CorrectsAt(f, w, xs, mags, m, p);
    XorInRange(f, w[p], mags[j]);
    XorComm(m[p], w[p]);
    XorCancel(mags[j], w[p]);
    XorCancel(m[p], w[p]);
  }

  lemma CorrectedOver(f: Field, w: seq<nat>, xs: seq<nat>, mags: seq<nat>, m: seq<nat>)
    requires Locators(f, xs) && |xs| == |mags| && Inside(f, xs, |w|) && |w| < f.size && Corrects(f, w, xs, mags, m)
    requires Over(f, w) && AllNonzero(f, mags)
    ensures Over(f, m) && |m| == |w|
  {
    hide IsField, Xor, Locators;
    TableRange(f);
    forall p | 0 <= p < |m| ensures m[p] < f.size {
      assert CorrectsAt(f, w, xs, mags, m, p);
      if Exp(f, |w| - 1 - p) in xs {
        var j :| 0 <= j < |xs| && xs[j] == Exp(f, |w| - 1 - p);
        LogExp(f, |w| - 1 - p);
        CorrectedDiffers(f, w, xs, mags, m, j);
      }
    }
  }

  /** The error locators between the corrected and the received word are those of the solution. */
  lemma ErrorsAre(f: Field, w: seq<nat>, xs: seq<nat>, mags: seq<nat>, m: seq<nat>)
    requires Locators(f, xs) && |xs| == |mags| && Inside(f, xs, |w|) && |w| < f.size && Corrects(f, w, xs, mags, m)
    requires Over(f, w) && AllNonzero(f, mags)
    ensures |f.expTable| == 2 * f.size && Over(f, m) && |m| == |w|
    ensures var ys := ErrorLocators(f, m, w, |m|);
      Locators(f, ys) && |ys| == |xs| && (forall x :: x in xs ==> x in ys) && (forall y :: y in ys ==> y in xs)
  {
    hide IsField, Xor, ErrorLocators, ErrorValues, Corrects, AllNonzero, Over;
    TableRange(f);
    CorrectedOver(f, w, xs, mags, m);
    var ys := ErrorLocators(f, m, w, |m|);
    ErrorLocatorsDistinct(f, m, w, |m|);
    forall x | x in xs ensures x in ys {
      var j :| 0 <= j < |xs| && xs[j] == x;
      CorrectedDiffers(f, w, xs, mags, m, j);
      ExpLog(f, x);
      ErrorListed(f, m, w, |m|, |m| - 1 - Log(f, x));
    }
    forall y | y in ys ensures y in xs {
      var k :| 0 <= k < |ys| && ys[k] == y;
      ErrorIsCorrected(f, w, xs, mags, m, k);
    }
    SameLength(xs, ys);
  }

  lemma ErrorIsCorrected(f: Field, w: seq<nat>, xs: seq<nat>, mags: seq<nat>, m: seq<nat>, k: nat)
    requires Locators(f, xs) && |xs| == |mags| && Inside(f, xs, |w|) && |w| < f.size && Corrects(f, w, xs, mags, m)
    requires Over(f, w) && Over(f, m) && |f.expTable| == 2 * f.size && k < |ErrorLocators(f, m, w, |m|)|
    ensures ErrorLocators(f, m, w, |m|)[k] in xs
  {
    hide IsField, Xor, ErrorLocators, ErrorValues, Over, Pow, Mul;
    TableRange(f);
    ErrorListing(f, m, w, |m|);
    var y := ErrorLocators(f, m, w, |m|)[k];
    assert Describes(f, m, w, |m|, y, ErrorValues(f, m, w, |m|)[k]);
    ExpLog(f, y);
    assert CorrectsAt(f, w, xs, mags, m, |m| - 1 - Log(f, y));
  }

  // ----- Forney's magnitudes

  /** For an evaluator with no common root no magnitude is zero; scaled back it is evaluator over denominator. */
  lemma MagnitudeScaled(f: Field, e: Poly, xs: seq<nat>, j: nat)
    requires Locators(f, xs) && j < |xs| && Over(f, e) && NoCommonRoot(f, xs, e) && f.generatorBase <= 1
    ensures 0 < Magnitude(f, e, xs, j) < f.size
    ensures Mul(f, Mul(f, Magnitude(f, e, xs, j), Pow(f, xs[j], f.generatorBase)), Denominator(f, xs, j, |xs|)) ==
            Eval(f, e, Inverse(f, xs[j]))
  {
    hide IsField, Over, Eval, Mul, Inverse, Denominator;
    var x, d := xs[j], Denominator(f, xs, j, |xs|);
    var v := Eval(f, e, Inverse(f, x));
    DenominatorRange(f, xs, j);
    EvalRange(f, e, Inverse(f, x));
    var m := Mul(f, v, Inverse(f, d));
    MulNonzero(f, v, Inverse(f, d));
    MulAssoc(f, v, Inverse(f, d), d);
    MulInverse(f, d);
    MulOne(f, v);
    MulOne(f, m);
    if f.generatorBase == 1 {
      MulNonzero(f, m, Inverse(f, x));
      assert Pow(f, x, 1) == Mul(f, x, Pow(f, x, 0));
      MulOne(f, x);
      MulAssoc(f, m, Inverse(f, x), x);
      MulInverse(f, x);
    }
  }

  /** Evaluator of the actual errors and evaluator of the solution agree at every root. */
  lemma EvaluatorsAgree(f: Field, w: seq<nat>, xs: seq<nat>, e: Poly, mags: seq<nat>, m: seq<nat>, j: nat)
    requires Locators(f, xs) && AreMagnitudes(f, e, xs, mags) && Inside(f, xs, |w|) && |w| < f.size
    requires Corrects(f, w, xs, mags, m) && AllNonzero(f, mags) && j < |xs|
    requires Over(f, w) && Over(f, e) && NoCommonRoot(f, xs, e) && f.generatorBase <= 1
    ensures |f.expTable| == 2 * f.size
    ensures Eval(f, Evaluator(f, ErrorLocators(f, m, w, |m|), ErrorValues(f, m, w, |m|)), Inverse(f, xs[j])) ==
            Eval(f, e, Inverse(f, xs[j]))
  {
    hide IsField, Over, ErrorLocators, ErrorValues, Evaluator, Eval, Mul, Inverse, Denominator, Pow, Xor, NoCommonRoot,
      Corrects, AllNonzero, Magnitude;
    TableRange(f);
    ErrorsAre(f, w, xs, mags, m);
    var ys, zs := ErrorLocators(f, m, w, |m|), ErrorValues(f, m, w, |m|);
    ErrorListing(f, m, w, |m|);
    ElementsDescribed(f, m, w, ys, zs);
    assert xs[j] in ys;
    var k :| 0 <= k < |ys| && ys[k] == xs[j];
    EvaluatorOverDenominator(f, ys, zs, k, xs, j);
    assert Describes(f, m, w, |m|, ys[k], zs[k]);
    CorrectedDiffers(f, w, xs, mags, m, j);
    MagnitudeScaled(f, e, xs, j);
  }

  lemma ElementsDescribed(f: Field, c: seq<nat>, w: seq<nat>, xs: seq<nat>, zs: seq<nat>)
    requires |c| == |w| && |f.logTable| == f.size && |xs| == |zs|
    requires AllDescribed(f, c, w, |c|, xs, zs)
    ensures Elements(f, zs)
  {
    hide IsField, Mul, Xor, Pow;
    forall i | 0 <= i < |zs| ensures zs[i] < f.size {
      assert Describes(f, c, w, |c|, xs[i], zs[i]);
    }
  }

  // ----- cancelling a locator from a congruence

  lemma {:induction false} LinearCancels(f: Field, x: nat, p: Poly, q: Poly, n: nat)
    requires Over(f, p) && Over(f, q) && ModEq(Times(f, Linear(x), p), Times(f, Linear(x), q), n)
    ensures ModEq(p, q, n)
  {
    hide IsField, Times, Mul, Xor, Linear;
    if n > 0 {
      TableRange(f);
      LinearCancels(f, x, p, q, n - 1);
      var k := n - 1;
      CoefTimesLinear(f, x, p, k);
      CoefTimesLinear(f, x, q, k);
      var v := if k == 0 then 0 else Mul(f, x, Coef(p, k - 1));
      XorComm(v, Coef(p, k));
      XorComm(v, Coef(q, k));
      XorCancel(Coef(p, k), v);
      XorCancel(Coef(q, k), v);
    }
  }

  /** A locator has constant term one, so it can be cancelled modulo x^n. */
  lemma {:induction false} LocatorCancels(f: Field, xs: seq<nat>, p: Poly, q: Poly, n: nat)
    requires Locators(f, xs) && Over(f, p) && Over(f, q) && |p| > 0 && |q| > 0
    requires ModEq(Times(f, Locator(f, xs), p), Times(f, Locator(f, xs), q), n)
    ensures ModEq(p, q, n)
    decreases |xs|
  {
    hide IsField, Times, Mul, Xor, Linear, ModEq, Over;
    if |xs| == 0 {
      OneCancels(f, p, q, n);
    } else {
      var k := |xs| - 1;
      var l, x := Locator(f, xs[..k]), xs[k];
      LocatorShape(f, xs[..k]);
      LinearOver(f, x);
      TimesAssoc(f, l, Linear(x), p);
      TimesAssoc(f, l, Linear(x), q);
      OverTimes(f, Linear(x), p);
      OverTimes(f, Linear(x), q);
      LocatorCancels(f, xs[..k], Times(f, Linear(x), p), Times(f, Linear(x), q), n);
      LinearCancels(f, x, p, q, n);
    }
  }

  lemma LinearOver(f: Field, x: nat)
    requires x < f.size
    ensures Over(f, Linear(x)) && |Linear(x)| == 2
  {
    TableRange(f);
  }

  lemma OneCancels(f: Field, p: Poly, q: Poly, n: nat)
    requires Over(f, p) && Over(f, q) && ModEq(Times(f, ONE, p), Times(f, ONE, q), n)
    ensures ModEq(p, q, n)
  {
    hide IsField, Times, Mul, Xor, Conv, Coef, Over;
    forall k: nat | k < n ensures Coef(p, k) == Coef(q, k) {
      CoefOne(f, p, k);
      CoefOne(f, q, k);
    }
  }

  lemma CoefOne(f: Field, p: Poly, k: nat)
    requires Over(f, p)
    ensures Coef(Times(f, ONE, p), k) == Coef(p, k)
  {
    hide IsField, Times, Mul, Xor;
    TableRange(f);
    CoefTimes(f, ONE, p, k);
    ConvUnfold(f, ONE, p, k);
    assert ONE[..0] == [];
    MulOne(f, Coef(p, k));
    XorZero(Coef(p, k));
    ConvNothing(f, p, k);
  }

  lemma ConvNothing(f: Field, p: Poly, k: nat)
    ensures k > 0 ==> Conv(f, [], p, k - 1) == 0
  {
  }

  // ----- when the corrected word is a code word

  /** The setting: a solution inside the word, Forney's magnitudes, and the word they leave. */
  ghost predicate Corrected(f: Field, w: seq<nat>, n: nat, xs: seq<nat>, e: Poly, mags: seq<nat>, m: seq<nat>)
    requires InTable(f, n)
  {
    && Explains(f, w, n, xs, e) && 0 < |w| < f.size && Over(f, w) && f.generatorBase <= 1
    && AreMagnitudes(f, e, xs, mags) && Corrects(f, w, xs, mags, m)
  }

  lemma MagnitudesNonzero(f: Field, e: Poly, xs: seq<nat>, mags: seq<nat>)
    requires Locators(f, xs) && Over(f, e) && NoCommonRoot(f, xs, e) && f.generatorBase <= 1
    requires AreMagnitudes(f, e, xs, mags)
    ensures AllNonzero(f, mags)
  {
    hide IsField, Over, Magnitude, NoCommonRoot, Denominator;
    forall j | 0 <= j < |mags| ensures 0 < mags[j] < f.size {
      MagnitudeScaled(f, e, xs, j);
    }
  }

  /** The power sums of the corrections, as a polynomial, satisfy the key equation with their own evaluator. */
  lemma CorrectionSums(f: Field, w: seq<nat>, n: nat, xs: seq<nat>, e: Poly, mags: seq<nat>, m: seq<nat>)
    returns (sums: Poly, v: Poly)
    requires InTable(f, n) && Corrected(f, w, n, xs, e, mags, m)
    ensures |f.expTable| == 2 * f.size && |m| == |w| && Over(f, m)
    ensures |sums| == n && Over(f, sums) && Canonical(v) && Over(f, v) && |v| <= |xs|
    ensures forall k: nat :: k < n ==> Coef(sums, k) == Xor(Syndrome(f, m, k), Syndrome(f, w, k))
    ensures ModEq(Times(f, Locator(f, xs), sums), v, n)
    ensures forall j :: 0 <= j < |xs| ==> Eval(f, v, Inverse(f, xs[j])) == Eval(f, e, Inverse(f, xs[j]))
  {
    hide IsField, Over, ErrorLocators, ErrorValues, Evaluator, Eval, Mul, Inverse, Pow, Xor, NoCommonRoot, PowerSum,
      Corrects, AllNonzero, Locator, Times, ModEq, SyndromePoly, Syndrome, Coef;
    MagnitudesNonzero(f, e, xs, mags);
    ErrorsAre(f, w, xs, mags, m);
    var ys, zs := ErrorLocators(f, m, w, |m|), ErrorValues(f, m, w, |m|);
    v := Evaluator(f, ys, zs);
    TableSizes(f);
    ErrorListing(f, m, w, |m|);
    ElementsDescribed(f, m, w, ys, zs);
    EvaluatorShape(f, ys, zs);
    sums := SumsPoly(f, ys, zs, n);
    forall k: nat | k < n ensures Coef(sums, k) == Xor(Syndrome(f, m, k), Syndrome(f, w, k)) {
      SyndromeDifference(f, m, w, n, k);
    }
    LocatorTimesSyndromes(f, ys, zs, sums, n);
    LocatorUnique(f, ys, xs);
    forall j | 0 <= j < |xs| ensures Eval(f, v, Inverse(f, xs[j])) == Eval(f, e, Inverse(f, xs[j])) {
      EvaluatorsAgree(f, w, xs, e, mags, m, j);
    }
  }

  lemma SumsPoly(f: Field, ys: seq<nat>, zs: seq<nat>, n: nat) returns (sums: Poly)
    requires |ys| == |zs| && Elements(f, zs)
    ensures |sums| == n && Over(f, sums)
    ensures forall k: nat :: k < n ==> Coef(sums, k) == PowerSum(f, ys, zs, k)
  {
    hide IsField, PowerSum, Over;
    sums := seq(n, i requires 0 <= i < n => PowerSum(f, ys, zs, n - 1 - i));
    SumsOver(f, ys, zs, n, sums);
  }

  lemma SumsOver(f: Field, ys: seq<nat>, zs: seq<nat>, n: nat, sums: Poly)
    requires |ys| == |zs| && |sums| == n
    requires forall i :: 0 <= i < n ==> sums[i] == PowerSum(f, ys, zs, n - 1 - i)
    ensures Over(f, sums)
  {
    hide IsField, PowerSum;
    forall i | 0 <= i < |sums| ensures sums[i] < f.size {
      PowerSumRange(f, ys, zs, n - 1 - i);
    }
  }

  lemma {:induction false} PowerSumRange(f: Field, xs: seq<nat>, zs: seq<nat>, i: nat)
    requires |xs| == |zs|
    ensures f.size >= 2 && PowerSum(f, xs, zs, i) < f.size
  {
    hide Mul, Xor, IsField, Pow;
    TableSizes(f);
    if |xs| > 0 {
      var n := |xs| - 1;
      PowerSumRange(f, xs[..n], zs[..n], i);
      XorInRange(f, PowerSum(f, xs[..n], zs[..n], i), Mul(f, zs[n], Pow(f, xs[n], i)));
    }
  }

  /** Two short polynomials with the same values at as many points are equal. */
  lemma SameValues(f: Field, xs: seq<nat>, p: Poly, q: Poly)
    requires Locators(f, xs) && |xs| > 0 && Canonical(p) && Over(f, p) && Canonical(q) && Over(f, q)
    requires |p| <= |xs| && |q| <= |xs|
    requires forall j :: 0 <= j < |xs| ==> Eval(f, p, Inverse(f, xs[j])) == Eval(f, q, Inverse(f, xs[j]))
    ensures p == q
  {
    hide IsField, Over, Eval, Inverse, Plus, Xor;
    var d := Plus(p, q);
    OverPlus(f, p, q);
    PlusLength(p, q);
    PlusSelf(p, q);
    forall j | 0 <= j < |xs| ensures Eval(f, d, Inverse(f, xs[j])) == 0 {
      EvalPlus(f, p, q, Inverse(f, xs[j]));
      XorSelf(Eval(f, p, Inverse(f, xs[j])));
    }
    if !IsZero(d) {
      RootBound(f, d, xs);
      assert false;
    }
    assert d == ZERO;
  }

  lemma SyndromePolyIs(f: Field, w: seq<nat>, n: nat)
    requires InTable(f, n) && Over(f, w)
    ensures Over(f, SyndromePoly(f, w, n))
    ensures forall k: nat :: k < n ==> Coef(SyndromePoly(f, w, n), k) == Syndrome(f, w, k)
  {
    hide IsField, Eval;
    TableSizes(f);
    var s := SyndromePoly(f, w, n);
    forall i | 0 <= i < n ensures s[i] < f.size {
      assert s[i] == Syndrome(f, w, n - 1 - i);
      EvalRange(f, w, Exp(f, n - 1 - i + f.generatorBase));
    }
  }

  /** An evaluator that is shorter than its locator leaves a code word. */
  lemma ShortMakesCodeword(f: Field, w: seq<nat>, n: nat, xs: seq<nat>, e: Poly, mags: seq<nat>, m: seq<nat>)
    requires InTable(f, n) && Corrected(f, w, n, xs, e, mags, m) && |e| <= |xs|
    ensures IsCodeword(f, m, n)
  {
    hide IsField, Over, Eval, Inverse, Xor, NoCommonRoot, Corrects, Locator, Times, ModEq, SyndromePoly, Syndrome, Coef,
      Inside, AreMagnitudes;
    var sums, v := CorrectionSums(f, w, n, xs, e, mags, m);
    SameValues(f, xs, v, e);
    SyndromePolyIs(f, w, n);
    var s := SyndromePoly(f, w, n);
    ModTransfer(Times(f, Locator(f, xs), sums), Times(f, Locator(f, xs), s), e, n);
    LocatorCancels(f, xs, sums, s, n);
    forall k: nat | k < n ensures Syndrome(f, m, k) == 0 {
      SameCoef(sums, s, n, k);
      XorCancel(Syndrome(f, m, k), Syndrome(f, w, k));
      XorSelf(Syndrome(f, w, k));
    }
  }

  lemma ModTransfer(p: Poly, q: Poly, e: Poly, n: nat)
    requires ModEq(p, e, n) && ModEq(q, e, n)
    ensures ModEq(p, q, n)
  {
  }

  lemma SameCoef(p: Poly, q: Poly, n: nat, k: nat)
    requires ModEq(p, q, n) && k < n
    ensures Coef(p, k) == Coef(q, k)
  {
  }

  /** And only such an evaluator does. */
  lemma CodewordIsShort(f: Field, w: seq<nat>, n: nat, xs: seq<nat>, e: Poly, mags: seq<nat>, m: seq<nat>)
    requires InTable(f, n) && Corrected(f, w, n, xs, e, mags, m) && IsCodeword(f, m, n)
    ensures |e| <= |xs|
  {
    hide IsField, Over, Eval, Inverse, Xor, NoCommonRoot, Corrects, Locator, Times, ModEq, SyndromePoly, Syndrome, Coef,
      Inside, AreMagnitudes;
    var sums, v := CorrectionSums(f, w, n, xs, e, mags, m);
    SyndromePolyIs(f, w, n);
    var s := SyndromePoly(f, w, n);
    forall k: nat | k < n ensures Coef(sums, k) == Coef(s, k) {
      assert Syndrome(f, m, k) == 0;
      XorZero(Syndrome(f, w, k));
    }
    SameMod(sums, s, n);
    ModTimes(f, Locator(f, xs), sums, s, n);
    ModTransfer2(Times(f, Locator(f, xs), sums), Times(f, Locator(f, xs), s), v, e, n);
    ModExact(v, e, n);
  }

  lemma SameMod(p: Poly, q: Poly, n: nat)
    requires forall k: nat :: k < n ==> Coef(p, k) == Coef(q, k)
    ensures ModEq(p, q, n)
  {
  }

  lemma ModTransfer2(p: Poly, q: Poly, v: Poly, e: Poly, n: nat)
    requires ModEq(p, q, n) && ModEq(p, v, n) && ModEq(q, e, n)
    ensures ModEq(v, e, n)
  {
  }

  /**
   * What the decoder leaves when it succeeds is a code word if and only if the evaluator has fewer terms than the
   * locator, which only a large number of check symbols can prevent.
   */
  lemma CodewordIff(f: Field, w: seq<nat>, n: nat, xs: seq<nat>, e: Poly, mags: seq<nat>, m: seq<nat>)
    requires InTable(f, n) && Corrected(f, w, n, xs, e, mags, m)
    ensures IsCodeword(f, m, n) <==> |e| <= |xs|
  {
    hide Corrected, IsCodeword;
    if IsCodeword(f, m, n) {
      CodewordIsShort(f, w, n, xs, e, mags, m);
    }
    if |e| <= |xs| {
      ShortMakesCodeword(f, w, n, xs, e, mags, m);
    }
  }
}
