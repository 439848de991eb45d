// ReedSolomonDecode itself, and the theorem that it undoes up to half as many errors as check symbols
// (zxing-core/src/ReedSolomonDecoder.cpp:108-141).
module ErrorCorrection {
  import opened BitOps
  import opened GenericGF
  import opened PolyAlgebra
  import opened PolyRoots
  import opened GenericGFPoly
  import opened ReedSolomonEncoder
  import opened KeyEquation
  import opened ErrorPattern
  import opened ReedSolomonDecoder
  import opened ErrorExplanation
  import opened CorrectedWord

  /** c is a code word with n check symbols that differs from w in at most n/2 symbols. */
  ghost predicate Within(f: Field, c: seq<nat>, w: seq<nat>, n: nat)
    requires InTable(f, n)
  {
    |c| == |w| && Over(f, c) && IsCodeword(f, c, n) && Distance(c, w, |c|) <= n / 2
  }

  /** The syndromes in the order the decoder stores them, highest power first. */
  ghost predicate IsSyndromes(f: Field, w: seq<nat>, n: nat, s: seq<nat>)
    requires InTable(f, n)
  {
    |s| == n && forall i: nat :: i < n ==> s[n - 1 - i] == Syndrome(f, w, i)
  }

  /** The locators and scaled values of a correctable error pattern satisfy the key equation. */
  lemma ErrorsSatisfyKeyEquation(f: Field, c: seq<nat>, w: seq<nat>, n: nat, s: seq<nat>)
    requires 0 < |w| < f.size && InTable(f, n) && Over(f, w) && Within(f, c, w, n)
    requires IsSyndromes(f, w, n, s) && c != w
    requires |f.expTable| == 2 * f.size && |f.logTable| == f.size
    ensures var xs, zs := ErrorLocators(f, c, w, |c|), ErrorValues(f, c, w, |c|);
      && n > 0 && 0 < |xs| == |zs| <= n / 2 && Locators(f, xs) && Elements(f, zs)
      && (forall i :: 0 <= i < |zs| ==> zs[i] != 0)
      && ModEq(Times(f, Locator(f, xs), PolyAlgebra.Normalize(s)), Evaluator(f, xs, zs), n)
  {
    hide IsField, Times, Over, ErrorLocators, ErrorValues, Syndrome, PowerSum, ModEq, Locator, Evaluator, Mul, Xor, Pow;
    var xs, zs := ErrorLocators(f, c, w, |c|), ErrorValues(f, c, w, |c|);
    DistanceZero(c, w, |c|);
    assert c[..|c|] == c && w[..|c|] == w;
    ErrorLocatorsDistinct(f, c, w, |c|);
    ErrorListing(f, c, w, |c|);
    forall i | 0 <= i < |zs| ensures 0 < zs[i] < f.size {
      assert Describes(f, c, w, |c|, xs[i], zs[i]);
    }
    forall k: nat | k < n ensures Coef(PolyAlgebra.Normalize(s), k) == PowerSum(f, xs, zs, k) {
      CoefNormalize(s, k);
      SyndromesArePowerSums(f, c, w, n, k);
    }
    LocatorTimesSyndromes(f, xs, zs, PolyAlgebra.Normalize(s), n);
  }

  /** Errors show in the syndromes. */
  lemma ErrorsAreSeen(f: Field, c: seq<nat>, w: seq<nat>, n: nat, s: seq<nat>)
    requires 0 < |w| < f.size && InTable(f, n) && Over(f, w) && Within(f, c, w, n)
    requires IsSyndromes(f, w, n, s)
    requires |f.expTable| == 2 * f.size && |f.logTable| == f.size
    requires forall i :: 0 <= i < |s| ==> s[i] == 0
    ensures c == w
  {
    hide IsField, Times, Over, ErrorLocators, ErrorValues, Syndrome, Locator, Evaluator, Eval, ModEq;
    if c != w {
      ErrorsSatisfyKeyEquation(f, c, w, n, s);
      var xs, zs := ErrorLocators(f, c, w, |c|), ErrorValues(f, c, w, |c|);
      NormalizeOfZeros(s);
      TimesZero(f, Locator(f, xs));
      EvaluatorShape(f, xs, zs);
      ModExact(ZERO, Evaluator(f, xs, zs), n);
      EvaluatorNonzeroAtRoot(f, xs, zs, 0);
      EvalConstant(f, 0, Inverse(f, xs[0]));
      assert false;
    }
  }

  lemma {:induction false} NormalizeOfZeros(s: seq<nat>)
    requires forall i :: 0 <= i < |s| ==> s[i] == 0
    ensures PolyAlgebra.Normalize(s) == ZERO
  {
    if |s| > 1 {
      NormalizeOfZeros(s[1..]);
    } else {
      assert |s| == 1 ==> s == ZERO;
    }
  }

  /** The polynomials the Euclidean algorithm hands over are the locator and the evaluator. */
  lemma EuclidFindsErrors(f: Field, c: seq<nat>, w: seq<nat>, n: nat, s: seq<nat>,
                          rLast: Poly, r: Poly, tLast: Poly, t: Poly)
    requires 0 < |w| < f.size && InTable(f, n) && Over(f, w) && Within(f, c, w, n)
    requires IsSyndromes(f, w, n, s) && c != w
    requires |f.expTable| == 2 * f.size && |f.logTable| == f.size
    requires EuclidDone(f, PolyAlgebra.Normalize(s), n, rLast, r, tLast, t)
    ensures var xs, zs := ErrorLocators(f, c, w, |c|), ErrorValues(f, c, w, |c|);
      && 0 < Coef(t, 0) < f.size
      && Times(f, [Inverse(f, Coef(t, 0))], t) == Locator(f, xs)
      && Times(f, [Inverse(f, Coef(t, 0))], r) == Evaluator(f, xs, zs)
  {
    hide IsField, Times, Over, ErrorLocators, ErrorValues, Locator, Evaluator, Mul, ModEq, EuclidState, Eval;
    var xs, zs := ErrorLocators(f, c, w, |c|), ErrorValues(f, c, w, |c|);
    ErrorsSatisfyKeyEquation(f, c, w, n, s);
    var l, e := Locator(f, xs), Evaluator(f, xs, zs);
    LocatorShape(f, xs);
    EvaluatorShape(f, xs, zs);
    forall i | 0 <= i < |xs| ensures Eval(f, e, Inverse(f, xs[i])) != 0 {
      EvaluatorNonzeroAtRoot(f, xs, zs, i);
    }
    var a := EuclidSolves(f, PolyAlgebra.Normalize(s), n, rLast, r, tLast, t, xs, e);
    ConstantOfTimes(f, [a], l);
    MulOne(f, a);
    Rescale(f, a, l);
    Rescale(f, a, e);
  }

  /** Each found magnitude is the difference between the sent and the received symbol. */
  lemma MagnitudeIsError(f: Field, c: seq<nat>, w: seq<nat>, locs: seq<nat>, i: nat)
    requires |c| == |w| < f.size && |f.expTable| == 2 * f.size && |f.logTable| == f.size
    requires f.generatorBase <= 1 && Over(f, c) && Over(f, w)
    requires Locators(f, locs) && i < |locs|
    requires var xs := ErrorLocators(f, c, w, |c|);
      |locs| == |xs| && forall x :: x in locs ==> x in xs
    ensures Log(f, locs[i]) < |c|
    ensures var p := |c| - 1 - Log(f, locs[i]);
      Magnitude(f, Evaluator(f, ErrorLocators(f, c, w, |c|), ErrorValues(f, c, w, |c|)), locs, i)
        == Xor(c[p], w[p])
  {
    hide IsField, Over, ErrorLocators, ErrorValues, Evaluator, Mul, Xor, Eval, Inverse, Pow, Denominator;
    var xs, zs := ErrorLocators(f, c, w, |c|), ErrorValues(f, c, w, |c|);
    var x := locs[i];
    ErrorLocatorsDistinct(f, c, w, |c|);
    ErrorListing(f, c, w, |c|);
    DescribedInRange(f, c, w, xs, zs);
    assert x in locs;
    var k :| 0 <= k < |xs| && xs[k] == x;
    assert Describes(f, c, w, |c|, xs[k], zs[k]);
    var p := |c| - 1 - Log(f, x);
    OverAt(f, c, p);
    OverAt(f, w, p);
    XorInRange(f, c[p], w[p]);
    EvaluatorOverDenominator(f, xs, zs, k, locs, i);
    DenominatorRange(f, locs, i);
    UnscaleMagnitude(f, Xor(c[p], w[p]), x, Denominator(f, locs, i, |locs|), zs[k]);
  }

  lemma DescribedInRange(f: Field, c: seq<nat>, w: seq<nat>, xs: seq<nat>, zs: seq<nat>)
    requires |c| == |w| && |f.logTable| == f.size && |xs| == |zs|
    requires AllDescribed(f, c, w, |c|, xs, zs)
    ensures Elements(f, zs)
  {
    hide IsField, Mul, Xor, Pow;
    forall i | 0 <= i < |zs| ensures zs[i] < f.size {
      assert Describes(f, c, w, |c|, xs[i], zs[i]);
    }
  }

  /** Forney's quotient: the denominator and the power of the locator cancel, for b = 0 and b = 1. */
  lemma UnscaleMagnitude(f: Field, y: nat, x: nat, d: nat, z: nat)
    requires y < f.size && 0 < x < f.size && 0 < d < f.size && f.generatorBase <= 1
    requires z == Mul(f, y, Pow(f, x, f.generatorBase))
    ensures var m := Mul(f, Mul(f, z, d), Inverse(f, d));
      (if f.generatorBase != 0 then Mul(f, m, Inverse(f, x)) else m) == y
  {
    hide IsField, Mul, Inverse;
    TableRange(f);
    MulAssoc(f, z, d, Inverse(f, d));
    MulInverse(f, d);
    MulOne(f, z);
    MulOne(f, y);
    if f.generatorBase == 1 {
      assert Pow(f, x, 1) == Mul(f, x, Pow(f, x, 0));
      MulOne(f, x);
      MulAssoc(f, y, x, Inverse(f, x));
      MulInverse(f, x);
    }
  }

  /** A position changes exactly when its locator is among those applied. */
  lemma {:induction false} AppliedAt(f: Field, c: seq<nat>, w: seq<nat>, locs: seq<nat>, mags: seq<nat>, i: nat, p: nat)
    requires Locators(f, locs) && i <= |locs| == |mags| && |f.logTable| == f.size
    requires |c| == |w| && p < |w| && |w| < f.size && |f.expTable| == 2 * f.size
    requires forall j :: 0 <= j < |locs| ==>
               Log(f, locs[j]) < |c| && mags[j] == Xor(c[|c| - 1 - Log(f, locs[j])], w[|c| - 1 - Log(f, locs[j])])
    ensures Applied(f, w, locs, mags, i)[p] == if Exp(f, |w| - 1 - p) in locs[..i] then c[p] else w[p]
  {
    hide IsField, Xor;
    if i > 0 {
      AppliedAt(f, c, w, locs, mags, i - 1, p);
      var x := Exp(f, |w| - 1 - p);
      assert locs[..i] == locs[..i - 1] + [locs[i - 1]];
      ExpLog(f, locs[i - 1]);
      LogExp(f, |w| - 1 - p);
      if locs[i - 1] == x {
        assert |w| - 1 - Log(f, locs[i - 1]) == p;
        assert x !in locs[..i - 1];
        XorComm(c[p], w[p]);
        XorCancel(c[p], w[p]);
      } else {
        assert Log(f, locs[i - 1]) != |w| - 1 - p;
      }
    }
  }

  /** If the found locators are those of the errors, and the magnitudes are Forney's, the code word is back. */
  lemma CorrectionsRestore(f: Field, c: seq<nat>, w: seq<nat>, locs: seq<nat>, mags: seq<nat>)
    requires |c| == |w| < f.size && |f.expTable| == 2 * f.size && |f.logTable| == f.size
    requires f.generatorBase <= 1 && Over(f, c) && Over(f, w)
    requires Locators(f, locs)
    requires var xs, zs := ErrorLocators(f, c, w, |c|), ErrorValues(f, c, w, |c|);
      && |locs| == |xs| && (forall x :: x in locs ==> x in xs) && (forall x :: x in xs ==> x in locs)
      && AreMagnitudes(f, Evaluator(f, xs, zs), locs, mags)
    ensures forall i :: 0 <= i < |locs| ==> Log(f, locs[i]) < |c|
    ensures Applied(f, w, locs, mags, |locs|) == c
  {
    hide IsField, Over, ErrorLocators, ErrorValues, Evaluator, Xor, Magnitude, Applied;
    forall i | 0 <= i < |locs|
      ensures Log(f, locs[i]) < |c| && mags[i] == Xor(c[|c| - 1 - Log(f, locs[i])], w[|c| - 1 - Log(f, locs[i])])
    {
      MagnitudeIsError(f, c, w, locs, i);
    }
    var r := Applied(f, w, locs, mags, |locs|);
    forall p | 0 <= p < |w| ensures r[p] == c[p] {
      AppliedAt(f, c, w, locs, mags, |locs|, p);
      assert locs[..|locs|] == locs;
      if c[p] != w[p] {
        ErrorListed(f, c, w, |c|, p);
      }
    }
  }

  /** Chien search on the locator finds exactly the error locators. */
  lemma SearchFindsErrors(f: Field, xs: seq<nat>)
    requires Locators(f, xs)
    ensures var all := RootLocators(f, Locator(f, xs), f.size);
      |all| == |xs| && (forall x :: x in all ==> x in xs) && (forall x :: x in xs ==> x in all)
  {
    hide IsField, Locator, Inverse, Eval, RootLocators;
    var p := Locator(f, xs);
    var all := RootLocators(f, p, f.size);
    LocatorShape(f, xs);
    RootLocatorsSound(f, p, f.size);
    forall x | x in all ensures x in xs {
      LocatorRoot(f, xs, x);
    }
    forall x | x in xs ensures x in all {
      LocatorRoot(f, xs, x);
      RootLocatorsComplete(f, p, f.size, x);
    }
    SameLength(xs, all);
  }

  // ----- the decoder

  method Syndromes(f: Field, message: seq<nat>, numECCodeWords: nat) returns (syndromes: seq<nat>, clean: bool)
    requires |message| > 0 && Over(f, message) && InTable(f, numECCodeWords)
    ensures IsSyndromes(f, message, numECCodeWords, syndromes) && Over(f, syndromes)
    ensures clean <==> forall i :: 0 <= i < |syndromes| ==> syndromes[i] == 0
    ensures clean <==> IsCodeword(f, message, numECCodeWords)
  {
    hide IsField, Eval;
    TableRange(f);
    var poly := new GFPoly.FromCoefficients(f, message);
    syndromes := Zeros(numECCodeWords);
    clean := true;
    for i := 0 to numECCodeWords
      invariant poly.Valid() && poly.field == f && poly.coefficients == PolyAlgebra.Normalize(message)
      invariant |syndromes| == numECCodeWords && Over(f, syndromes)
      invariant forall k: nat :: k < i ==> syndromes[numECCodeWords - 1 - k] == Syndrome(f, message, k)
      invariant clean <==> forall k: nat :: k < i ==> Syndrome(f, message, k) == 0
    {
      var value := poly.EvaluateAt(Exp(f, i + f.generatorBase));
      EvalNormalize(f, message, Exp(f, i + f.generatorBase));
      EvalRange(f, message, Exp(f, i + f.generatorBase));
      assert value == Syndrome(f, message, i);
      syndromes := syndromes[numECCodeWords - 1 - i := value];
      clean := clean && value == 0;
    }
    AllSyndromesZero(f, message, numECCodeWords, syndromes);
  }

  lemma AllSyndromesZero(f: Field, w: seq<nat>, n: nat, s: seq<nat>)
    requires InTable(f, n) && IsSyndromes(f, w, n, s)
    ensures IsCodeword(f, w, n) <==> forall i :: 0 <= i < |s| ==> s[i] == 0
  {
    hide IsField, Syndrome;
    forall i | 0 <= i < n ensures s[i] == Syndrome(f, w, n - 1 - i) {
      assert s[n - 1 - (n - 1 - i)] == Syndrome(f, w, n - 1 - i);
    }
    forall i: nat | i < n ensures Syndrome(f, w, i) == s[n - 1 - i] {
    }
  }

  /** The roots of sigma are as many as its degree, they are positions of w, and Forney's magnitudes at them
      turn w into c. */
  ghost predicate Restores(f: Field, c: seq<nat>, w: seq<nat>, sigma: Poly, omega: Poly)
    requires |f.logTable| == f.size
  {
    var locs := RootLocators(f, sigma, f.size);
    && |sigma| > 0 && !IsZero(sigma)
    && |locs| == |sigma| - 1 && |locs| > 0 && Locators(f, locs)
    && (forall i :: 0 <= i < |locs| ==> Log(f, locs[i]) < |w|)
    && forall mags: seq<nat> :: AreMagnitudes(f, omega, locs, mags) ==> Applied(f, w, locs, mags, |locs|) == c
  }

  /** What the corrections found from sigma and omega do to any code word within reach. */
  lemma DecodeRestores(f: Field, c: seq<nat>, w: seq<nat>, n: nat, s: seq<nat>,
                       rLast: Poly, r: Poly, tLast: Poly, t: Poly)
    requires 0 < |w| < f.size && InTable(f, n) && Over(f, w) && Within(f, c, w, n) && f.generatorBase <= 1
    requires IsSyndromes(f, w, n, s) && !IsCodeword(f, w, n)
    requires EuclidDone(f, PolyAlgebra.Normalize(s), n, rLast, r, tLast, t)
    ensures 0 < Coef(t, 0) < f.size && |f.logTable| == f.size
    ensures Restores(f, c, w, Times(f, [Inverse(f, Coef(t, 0))], t), Times(f, [Inverse(f, Coef(t, 0))], r))
  {
    hide IsField, Times, Over, ErrorLocators, ErrorValues, Locator, Evaluator, RootLocators, Magnitude, Applied,
         IsCodeword, EuclidDone, Inverse;
    TableRange(f);
    var xs, zs := ErrorLocators(f, c, w, |c|), ErrorValues(f, c, w, |c|);
    ErrorsSatisfyKeyEquation(f, c, w, n, s);
    EuclidFindsErrors(f, c, w, n, s, rLast, r, tLast, t);
    SearchFindsErrors(f, xs);
    LocatorShape(f, xs);
    var locs := RootLocators(f, Locator(f, xs), f.size);
    RootLocatorsSound(f, Locator(f, xs), f.size);
    var e := Evaluator(f, xs, zs);
    forall i | 0 <= i < |locs| ensures Log(f, locs[i]) < |w| {
      MagnitudeIsError(f, c, w, locs, i);
    }
    forall mags: seq<nat> | AreMagnitudes(f, e, locs, mags)
      ensures Applied(f, w, locs, mags, |locs|) == c
    {
      CorrectionsRestore(f, c, w, locs, mags);
    }
  }

  /** A code word the decoder promises to restore from w. */
  ghost predicate Reachable(f: Field, c: seq<nat>, w: seq<nat>, n: nat)
    requires InTable(f, n)
  {
    |w| < f.size && f.generatorBase <= 1 && Within(f, c, w, n)
  }

  /** With fewer than two check symbols only the received word itself is in reach. */
  lemma ReachNeedsTwo(f: Field, c: seq<nat>, w: seq<nat>, n: nat)
    requires InTable(f, n) && Reachable(f, c, w, n) && !IsCodeword(f, w, n)
    ensures n >= 2
  {
    hide IsField, Over, IsCodeword;
    DistanceZero(c, w, |c|);
    assert c[..|c|] == c && w[..|c|] == w;
  }

  lemma DistanceAdds(f: Field, w: seq<nat>, locs: seq<nat>, mags: seq<nat>, i: nat)
    requires Locators(f, locs) && i <= |locs| == |mags| && |f.logTable| == f.size
    requires Over(f, w) && forall j :: 0 <= j < |mags| ==> mags[j] < f.size
    ensures Over(f, Applied(f, w, locs, mags, i))
    ensures Distance(w, Applied(f, w, locs, mags, i), |w|) <= i
  {
    hide IsField, Xor;
    AppliedDistance(f, w, locs, mags, i);
    if i > 0 {
      DistanceAdds(f, w, locs, mags, i - 1);
      var prev := Applied(f, w, locs, mags, i - 1);
      var position := |w| - 1 - Log(f, locs[i - 1]);
      if position >= 0 {
        XorInRange(f, prev[position], mags[i - 1]);
      }
    }
  }

  lemma AppliedStep(f: Field, w: seq<nat>, locs: seq<nat>, mags: seq<nat>, i: nat)
    requires Locators(f, locs) && i < |locs| == |mags| && |f.logTable| == f.size
    ensures Applied(f, w, locs, mags, 0) == w
    ensures var prev := Applied(f, w, locs, mags, i);
      var position := |w| - 1 - Log(f, locs[i]);
      Applied(f, w, locs, mags, i + 1) == if position < 0 then prev else prev[position := Xor(prev[position], mags[i])]
  {
    hide IsField, Xor;
  }

  lemma ReachSeen(f: Field, c: seq<nat>, w: seq<nat>, n: nat, s: seq<nat>)
    requires 0 < |w| && InTable(f, n) && Over(f, w) && Reachable(f, c, w, n) && IsSyndromes(f, w, n, s)
    requires forall i :: 0 <= i < |s| ==> s[i] == 0
    ensures c == w
  {
    hide IsField;
    TableRange(f);
    ErrorsAreSeen(f, c, w, n, s);
  }

  lemma FirstSyndrome(f: Field, w: seq<nat>, n: nat, s: seq<nat>)
    requires InTable(f, n) && IsSyndromes(f, w, n, s)
    ensures n == 1 ==> s == [Syndrome(f, w, 0)]
  {
    hide IsField, Syndrome;
    assert n == 1 ==> s[n - 1 - 0] == Syndrome(f, w, 0);
  }

  lemma EuclidLength(f: Field, s: Poly, n: nat, rLast: Poly, r: Poly, tLast: Poly, t: Poly)
    requires EuclidDone(f, s, n, rLast, r, tLast, t)
    ensures 0 < |t| <= n + 1 - n / 2
  {
    hide IsField, Times, Plus, ModEq, Over;
  }

  lemma ScaledLength(f: Field, a: nat, p: Poly)
    requires |p| > 0
    ensures |Times(f, [a], p)| <= |p|
  {
    TimesUpper(f, [a], p);
  }

  // ----- what success means

  lemma SyndromesPoly(f: Field, w: seq<nat>, n: nat, s: seq<nat>)
    requires InTable(f, n) && IsSyndromes(f, w, n, s)
    ensures s == SyndromePoly(f, w, n)
  {
    hide IsField, Syndrome;
    forall i | 0 <= i < n ensures s[i] == SyndromePoly(f, w, n)[i] {
      assert s[n - 1 - (n - 1 - i)] == Syndrome(f, w, n - 1 - i);
    }
  }

  /** Some error positions, inside the word or not, solve the key equation. */
  ghost predicate Solvable(f: Field, w: seq<nat>, n: nat)
    requires InTable(f, n)
  {
    exists xs, e :: Solves(f, w, n, xs, e)
  }

  /** The search on sigma finds every solution there is. */
  lemma SolutionSearched(f: Field, w: seq<nat>, n: nat, xs: seq<nat>, e: Poly,
                         rLast: Poly, r: Poly, tLast: Poly, t: Poly)
    requires InTable(f, n) && Solves(f, w, n, xs, e)
    requires EuclidDone(f, PolyAlgebra.Normalize(SyndromePoly(f, w, n)), n, rLast, r, tLast, t)
    ensures 0 < Coef(t, 0) < f.size
    ensures var b := Inverse(f, Coef(t, 0));
      var sigma, all := Times(f, [b], t), RootLocators(f, Times(f, [b], t), f.size);
      && Times(f, [b], r) == e && !IsZero(sigma)
      && 0 < |all| == |sigma| - 1 == |xs|
      && (forall x :: x in all ==> x in xs) && (forall x :: x in xs ==> x in all)
  {
    hide IsField, Times, Over, Locator, ModEq, EuclidState, SyndromePoly, NoCommonRoot, RootLocators, Inverse;
    SolutionFound(f, w, n, xs, e, rLast, r, tLast, t);
    SearchFindsErrors(f, xs);
    LocatorShape(f, xs);
  }

  /** Without a root at zero, or without enough roots, there is no solution. */
  lemma NoSolution(f: Field, w: seq<nat>, n: nat, rLast: Poly, r: Poly, tLast: Poly, t: Poly)
    requires InTable(f, n)
    requires EuclidDone(f, PolyAlgebra.Normalize(SyndromePoly(f, w, n)), n, rLast, r, tLast, t)
    requires 0 < Coef(t, 0) < f.size ==>
               var sigma := Times(f, [Inverse(f, Coef(t, 0))], t);
               !IsZero(sigma) ==> |RootLocators(f, sigma, f.size)| != |sigma| - 1 || |sigma| == 1
    ensures !Solvable(f, w, n)
  {
    hide IsField, Times, EuclidState, SyndromePoly, RootLocators, Inverse, Solves;
    forall xs, e | Solves(f, w, n, xs, e) ensures false {
      SolutionSearched(f, w, n, xs, e, rLast, r, tLast, t);
    }
  }

  /** All solutions list the same errors, so all are inside the word if one is. */
  lemma SolutionsInside(f: Field, w: seq<nat>, n: nat, rLast: Poly, r: Poly, tLast: Poly, t: Poly)
    requires InTable(f, n) && 0 < Coef(t, 0) < f.size
    requires EuclidDone(f, PolyAlgebra.Normalize(SyndromePoly(f, w, n)), n, rLast, r, tLast, t)
    requires Locators(f, RootLocators(f, Times(f, [Inverse(f, Coef(t, 0))], t), f.size))
    requires !Inside(f, RootLocators(f, Times(f, [Inverse(f, Coef(t, 0))], t), f.size), |w|)
    ensures !Explained(f, w, n)
  {
    hide IsField, Times, EuclidState, SyndromePoly, RootLocators, Inverse, NoCommonRoot, ModEq, Over, Locator;
    var all := RootLocators(f, Times(f, [Inverse(f, Coef(t, 0))], t), f.size);
    forall xs, e | Explains(f, w, n, xs, e) ensures false {
      SolutionSearched(f, w, n, xs, e, rLast, r, tLast, t);
      SameInside(f, xs, all, |w|);
    }
  }

  lemma SameInside(f: Field, xs: seq<nat>, ys: seq<nat>, size: nat)
    requires Locators(f, xs) && Locators(f, ys) && Inside(f, xs, size) && forall y :: y in ys ==> y in xs
    ensures Inside(f, ys, size)
  {
    hide IsField;
    TableSizes(f);
    forall i | 0 <= i < |ys| ensures Log(f, ys[i]) < size {
      assert ys[i] in ys;
      var j :| 0 <= j < |xs| && xs[j] == ys[i];
    }
  }

  /** The word that is left: the corrections of a solution, and a code word exactly for a short evaluator. */
  ghost predicate LeftBySolution(f: Field, w: seq<nat>, n: nat, m: seq<nat>)
    requires InTable(f, n) && |w| < f.size
  {
    && (exists xs, e :: Explains(f, w, n, xs, e) && Corrects(f, w, xs, Magnitudes(f, e, xs), m))
    && (forall xs, e :: Explains(f, w, n, xs, e) ==> (IsCodeword(f, m, n) <==> |e| <= |xs|))
  }

  /** Successful corrections are those of a solution. */
  lemma LeftIs(f: Field, w: seq<nat>, n: nat, locs: seq<nat>, mags: seq<nat>, m: seq<nat>,
               rLast: Poly, r: Poly, tLast: Poly, t: Poly)
    requires InTable(f, n) && 0 < Coef(t, 0) < f.size && 0 < |w| < f.size && Over(f, w) && f.generatorBase <= 1
    requires EuclidDone(f, PolyAlgebra.Normalize(SyndromePoly(f, w, n)), n, rLast, r, tLast, t)
    requires var b := Inverse(f, Coef(t, 0));
      && Explains(f, w, n, locs, Times(f, [b], r)) && AreMagnitudes(f, Times(f, [b], r), locs, mags)
    requires Corrects(f, w, locs, mags, m)
    ensures LeftBySolution(f, w, n, m)
  {
    hide IsField, Times, EuclidState, SyndromePoly, RootLocators, Inverse, NoCommonRoot, ModEq, Over, Locator, Corrects,
      Magnitude, IsCodeword, Inside, Magnitudes;
    var omega := Times(f, [Inverse(f, Coef(t, 0))], r);
    MagnitudesAre(f, omega, locs, mags);
    assert Explains(f, w, n, locs, omega) && Corrects(f, w, locs, Magnitudes(f, omega, locs), m);
    CodewordIff(f, w, n, locs, omega, mags, m);
    SolutionSearched(f, w, n, locs, omega, rLast, r, tLast, t);
    forall xs, e | Explains(f, w, n, xs, e) ensures IsCodeword(f, m, n) <==> |e| <= |xs| {
      SolutionSearched(f, w, n, xs, e, rLast, r, tLast, t);
    }
  }

  /** Lines 132 to 139: the corrections one after the other, up to the first whose position is before the message. */
  method ApplyCorrections(f: Field, message: array<nat>, errorLocations: seq<nat>, errorMagnitudes: seq<nat>)
    returns (inside: bool)
    requires Locators(f, errorLocations) && |errorMagnitudes| == |errorLocations| && Over(f, message[..])
    requires forall i :: 0 <= i < |errorMagnitudes| ==> errorMagnitudes[i] < f.size
    modifies message
    ensures Over(f, message[..])
    ensures Distance(old(message[..]), message[..], message.Length) <= |errorLocations|
    ensures inside <==> Inside(f, errorLocations, message.Length)
    ensures |f.logTable| == f.size
    ensures inside ==> message[..] == Applied(f, old(message[..]), errorLocations, errorMagnitudes, |errorLocations|)
  {
    hide IsField, Over, Distance, Applied, Xor;
    TableSizes(f);
    ghost var w := message[..];
    DistanceZero(w, w, |w|);
    assert w[..|w|] == w;
    if |errorLocations| > 0 {
      AppliedStep(f, w, errorLocations, errorMagnitudes, 0);
    } else {
      NothingApplied(f, w, errorLocations, errorMagnitudes);
    }
    for i := 0 to |errorLocations|
      invariant message[..] == Applied(f, w, errorLocations, errorMagnitudes, i)
      invariant Over(f, message[..])
      invariant Distance(w, message[..], message.Length) <= i
      invariant forall j :: 0 <= j < i ==> Log(f, errorLocations[j]) < message.Length
    {
      var position := message.Length - 1 - Log(f, errorLocations[i]);
      if position < 0 {
        return false;
      }
      AppliedStep(f, w, errorLocations, errorMagnitudes, i);
      DistanceAdds(f, w, errorLocations, errorMagnitudes, i + 1);
      message[position] := Xor(message[position], errorMagnitudes[i]);
    }
    return true;
  }

  lemma NothingApplied(f: Field, w: seq<nat>, locs: seq<nat>, mags: seq<nat>)
    requires Locators(f, locs) && |locs| == |mags| && |f.logTable| == f.size
    ensures Applied(f, w, locs, mags, 0) == w
  {
  }

  /** Fixes errors in a message of data and check symbols. */
  method ReedSolomonDecode(f: Field, message: array<nat>, numECCodeWords: nat) returns (outcome: Outcome)
    requires message.Length > 0 && Over(f, message[..]) && InTable(f, numECCodeWords)
    modifies message
    // the division check throws for one check symbol with a nonzero syndrome, and only then
    ensures outcome == Threw <==> numECCodeWords == 1 && Syndrome(f, old(message[..]), 0) != 0
    // it succeeds exactly for code words and for words with errors that explain the syndromes
    ensures outcome == Succeeded <==>
      IsCodeword(f, old(message[..]), numECCodeWords) || Explained(f, old(message[..]), numECCodeWords)
    // a code word is accepted and kept
    ensures IsCodeword(f, old(message[..]), numECCodeWords) ==> message[..] == old(message[..])
    // otherwise the errors of a solution are corrected, and exactly a short evaluator makes that a code word
    ensures message.Length < f.size && f.generatorBase <= 1 && outcome == Succeeded
            && !IsCodeword(f, old(message[..]), numECCodeWords) ==>
              LeftBySolution(f, old(message[..]), numECCodeWords, message[..])
    // without a solution nothing changes, and whatever the input, few symbols change
    ensures !Solvable(f, old(message[..]), numECCodeWords) ==> message[..] == old(message[..])
    ensures Over(f, message[..])
    ensures Distance(old(message[..]), message[..], message.Length) <= numECCodeWords - numECCodeWords / 2
    // up to half as many errors as check symbols are undone
    ensures message.Length < f.size && f.generatorBase <= 1 ==>
      forall c: seq<nat> :: Within(f, c, old(message[..]), numECCodeWords) ==>
        outcome == Succeeded && message[..] == c
  {
    hide IsField, Over, RootLocators, Magnitude, Times, EuclidState, Within, IsCodeword, Distance, Inverse,
         Applied, Syndrome, Coef, Solvable, Explained, SyndromePoly, Solves, Inside, LeftBySolution, Corrects;
    ghost var w := message[..];
    TableSizes(f);
    var n := numECCodeWords;
    DistanceZero(w, w, |w|);
    var syndromes, clean := Syndromes(f, message[..], n);
    FirstSyndrome(f, w, n, syndromes);
    if clean {
      forall c: seq<nat> | |w| < f.size && f.generatorBase <= 1 && Within(f, c, w, n)
        ensures c == w {
        ReachSeen(f, c, w, n, syndromes);
      }
      return Succeeded;
    }
    SyndromesPoly(f, w, n, syndromes);
    FewNeeded(f, w, n);
    var sigma := new GFPoly();
    var omega := new GFPoly();
    ghost var rLast, r, tLast, t;
    outcome, rLast, r, tLast, t := RunEuclideanAlgorithm(f, syndromes, sigma, omega);
    forall c: seq<nat> | |w| < f.size && f.generatorBase <= 1 && Within(f, c, w, n)
        ensures outcome == Succeeded && Restores(f, c, w, sigma.coefficients, omega.coefficients) {
      ReachNeedsTwo(f, c, w, n);
      DecodeRestores(f, c, w, n, syndromes, rLast, r, tLast, t);
    }
    if outcome != Succeeded {
      if n >= 2 {
        NoSolution(f, w, n, rLast, r, tLast, t);
      }
      ExplainedSolves(f, w, n);
      return;
    }
    ghost var sigma0, omega0 := sigma.coefficients, omega.coefficients;
    EuclidLength(f, PolyAlgebra.Normalize(syndromes), n, rLast, r, tLast, t);
    ScaledLength(f, Inverse(f, Coef(t, 0)), t);
    var errorLocations := FindErrorLocations(f, sigma);
    if errorLocations == [] {
      NoSolution(f, w, n, rLast, r, tLast, t);
      ExplainedSolves(f, w, n);
      outcome := Failed;
      return;
    }
    assert !IsZero(sigma0);
    FoundIsSolution(f, w, n, rLast, r, tLast, t);
    SolvesSolvable(f, w, n, errorLocations, omega0);
    var errorMagnitudes := FindErrorMagnitudes(f, omega, errorLocations);
    var inside := ApplyCorrections(f, message, errorLocations, errorMagnitudes);
    if !inside {
      forall c: seq<nat> | |w| < f.size && f.generatorBase <= 1 && Within(f, c, w, n) ensures false {
        assert Restores(f, c, w, sigma0, omega0);
        AllInside(f, errorLocations, |w|);
      }
      SolutionsInside(f, w, n, rLast, r, tLast, t);
      outcome := Failed;
      return;
    }
    outcome := Succeeded;
    SolvesExplains(f, w, n, errorLocations, omega0);
    if |w| < f.size && f.generatorBase <= 1 {
      AppliedCorrects(f, w, errorLocations, errorMagnitudes);
      LeftIs(f, w, n, errorLocations, errorMagnitudes, message[..], rLast, r, tLast, t);
    }
    forall c: seq<nat> | |w| < f.size && f.generatorBase <= 1 && Within(f, c, w, n)
        ensures message[..] == c {
      assert Restores(f, c, w, sigma0, omega0);
      assert AreMagnitudes(f, omega0, errorLocations, errorMagnitudes);
    }
  }

  /** With no check symbol every word is a code word; with one there is no solution. */
  lemma FewNeeded(f: Field, w: seq<nat>, n: nat)
    requires InTable(f, n)
    ensures n == 0 ==> IsCodeword(f, w, n)
    ensures n <= 1 ==> !Solvable(f, w, n)
  {
    hide IsField, Times, SyndromePoly;
  }

  lemma ExplainedSolves(f: Field, w: seq<nat>, n: nat)
    requires InTable(f, n)
    ensures Explained(f, w, n) ==> Solvable(f, w, n)
  {
    hide Solves;
  }

  lemma SolvesSolvable(f: Field, w: seq<nat>, n: nat, xs: seq<nat>, e: Poly)
    requires InTable(f, n) && Solves(f, w, n, xs, e)
    ensures Solvable(f, w, n)
  {
    hide Solves;
  }

  lemma SolvesExplains(f: Field, w: seq<nat>, n: nat, xs: seq<nat>, e: Poly)
    requires InTable(f, n) && Solves(f, w, n, xs, e) && Locators(f, xs) && Inside(f, xs, |w|)
    ensures Explains(f, w, n, xs, e) && Explained(f, w, n)
  {
    hide Solves, Inside;
  }

  lemma AllInside(f: Field, xs: seq<nat>, size: nat)
    requires Locators(f, xs) && |f.logTable| == f.size && forall j :: 0 <= j < |xs| ==> Log(f, xs[j]) < size
    ensures Inside(f, xs, size)
  {
    hide IsField;
  }
}
