// A word that the decoder claims to have corrected and has not (zxing-core/src/ReedSolomonDecoder.h:38-45 against
// ReedSolomonDecoder.cpp:108-141): with four check symbols an evaluator can have as many terms as the locator.
module FalseSuccess {
  import opened BitOps
  import opened GenericGF
  import opened PolyAlgebra
  import opened PolyRoots
  import opened ReedSolomonEncoder
  import opened KeyEquation
  import opened ErrorPattern
  import opened ReedSolomonDecoder
  import opened ErrorExplanation
  import opened CorrectedWord
  import opened ErrorCorrection

  /** A field with room for the example. */
  ghost predicate Roomy(f: Field) {
    f.size >= 8 && f.generatorBase <= 1
  }

  /** x minus a power of alpha. */
  function Factor(f: Field, k: nat): Poly
    requires k < |f.expTable|
  {
    [1, Exp(f, k)]
  }

  /** A word that vanishes at the second, third and fourth root of the generator, but not at the first. */
  function ThreeRoots(f: Field): Poly
    requires Roomy(f)
  {
    TableSizes(f);
    var b := f.generatorBase;
    Times(f, Times(f, Factor(f, b + 1), Factor(f, b + 2)), Factor(f, b + 3))
  }

  lemma FactorAt(f: Field, k: nat, i: nat)
    requires k < f.size - 1 && i < f.size - 1
    ensures |f.expTable| == 2 * f.size
    ensures Canonical(Factor(f, k)) && Over(f, Factor(f, k)) && |Factor(f, k)| == 2
    ensures Eval(f, Factor(f, k), Exp(f, i)) < f.size
    ensures Eval(f, Factor(f, k), Exp(f, i)) == 0 <==> i == k
  {
    hide Mul, Xor, IsField;
    TableRange(f);
    LogExp(f, i);
    LogExp(f, k);
    EvalRange(f, Factor(f, k), Exp(f, i));
    EvalMonicFactor(f, Exp(f, k), Exp(f, i));
    XorCancel(Exp(f, i), Exp(f, k));
  }

  lemma ThreeRootsShape(f: Field)
    requires Roomy(f)
    ensures |ThreeRoots(f)| == 4 && Canonical(ThreeRoots(f)) && Over(f, ThreeRoots(f))
  {
    hide Times, IsField, Over, Factor;
    TableSizes(f);
    var b := f.generatorBase;
    FactorAt(f, b + 1, 0);
    FactorAt(f, b + 2, 0);
    FactorAt(f, b + 3, 0);
    var p, q, r := Factor(f, b + 1), Factor(f, b + 2), Factor(f, b + 3);
    TimesLength(f, p, q);
    OverTimes(f, p, q);
    TimesLength(f, Times(f, p, q), r);
    OverTimes(f, Times(f, p, q), r);
  }

  lemma ThreeRootsAt(f: Field, i: nat)
    requires Roomy(f) && i < 4
    ensures |f.expTable| == 2 * f.size
    ensures Eval(f, ThreeRoots(f), Exp(f, i + f.generatorBase)) == 0 <==> i > 0
    ensures Eval(f, ThreeRoots(f), Exp(f, i + f.generatorBase)) < f.size
  {
    hide Times, IsField, Over, Factor, Eval, Mul;
    TableSizes(f);
    var b := f.generatorBase;
    var a := Exp(f, i + b);
    FactorAt(f, b + 1, i + b);
    FactorAt(f, b + 2, i + b);
    FactorAt(f, b + 3, i + b);
    var p, q, r := Factor(f, b + 1), Factor(f, b + 2), Factor(f, b + 3);
    EvalTimes(f, p, q, a);
    EvalTimes(f, Times(f, p, q), r, a);
    MulZeroIff(f, Eval(f, p, a), Eval(f, q, a));
    MulZeroIff(f, Mul(f, Eval(f, p, a), Eval(f, q, a)), Eval(f, r, a));
  }

  /** The received word: that word with an error of one in the last symbol. */
  function Received(f: Field): seq<nat>
    requires Roomy(f)
  {
    ThreeRootsShape(f);
    ThreeRoots(f)[3 := Xor(ThreeRoots(f)[3], 1)]
  }

  /** Its syndromes are one, but for the first. */
  lemma ReceivedSyndrome(f: Field, i: nat)
    requires Roomy(f) && i < 4
    ensures |f.expTable| == 2 * f.size && Over(f, Received(f)) && |Received(f)| == 4
    ensures Syndrome(f, Received(f), i) < f.size
    ensures Syndrome(f, Received(f), i) == Xor(Eval(f, ThreeRoots(f), Exp(f, i + f.generatorBase)), 1)
    ensures i > 0 <==> Syndrome(f, Received(f), i) == 1
  {
    hide IsField, Mul, Xor, ThreeRoots;
    TableSizes(f);
    ThreeRootsShape(f);
    ThreeRootsAt(f, i);
    var p, a := ThreeRoots(f), Exp(f, i + f.generatorBase);
    var w := Received(f);
    XorInRange(f, p[3], 1);
    assert w[..3] == p[..3];
    XorAssoc(Mul(f, a, Eval(f, p[..3], a)), p[3], 1);
    EvalRange(f, w, a);
    XorZero(1);
    XorCancel(Eval(f, p, a), 1);
    XorCancel(1, 1);
  }

  /** The evaluator for one error in the last symbol: as long as the locator. */
  ghost function LongEvaluator(f: Field): Poly
    requires Roomy(f)
  {
    TableSizes(f);
    [Eval(f, ThreeRoots(f), Exp(f, f.generatorBase)), Syndrome(f, Received(f), 0)]
  }

  lemma LastSymbol(f: Field)
    requires Roomy(f)
    ensures Locators(f, [1]) && Locator(f, [1]) == Linear(1) && Inverse(f, 1) == 1 && Inside(f, [1], 4)
  {
    hide IsField, Times, Inverse, Mul;
    TableRange(f);
    assert [1][..0] == [];
    LinearOver(f, 1);
    TimesOne(f, Linear(1));
    MulInverse(f, 1);
    MulOne(f, Inverse(f, 1));
    ExpOfZero(f);
    LogExp(f, 0);
  }

  lemma LongEvaluatorShape(f: Field)
    requires Roomy(f)
    ensures var e := LongEvaluator(f); |e| == 2 && Canonical(e) && Over(f, e) && Eval(f, e, 1) == 1
  {
    hide IsField, Mul, Xor, ThreeRoots, Eval, Syndrome;
    TableSizes(f);
    ThreeRootsAt(f, 0);
    ReceivedSyndrome(f, 0);
    var h, e := Eval(f, ThreeRoots(f), Exp(f, f.generatorBase)), LongEvaluator(f);
    EvalPair(f, e[0], e[1]);
    XorCancel(1, h);
  }

  lemma EvalPair(f: Field, a: nat, b: nat)
    requires a < f.size
    ensures Eval(f, [a, b], 1) == Xor(a, b)
  {
    hide IsField, Mul, Xor;
    assert [a, b][..1] == [a];
    EvalConstant(f, a, 1);
    MulOne(f, a);
  }

  /** Modulo x^4 the locator x + 1 times the syndromes is that evaluator. */
  lemma LongCongruence(f: Field)
    requires Roomy(f)
    ensures InTable(f, 4) && ModEq(Times(f, Linear(1), SyndromePoly(f, Received(f), 4)), LongEvaluator(f), 4)
  {
    hide IsField, Mul, Xor, ThreeRoots, Eval, Syndrome, Times, Received, SyndromePoly, Linear;
    TableSizes(f);
    var w := Received(f);
    ReceivedSyndrome(f, 0);
    var s := SyndromePoly(f, w, 4);
    SyndromePolyIs(f, w, 4);
    forall k: nat | k < 4 ensures Coef(Times(f, Linear(1), s), k) == Coef(LongEvaluator(f), k) {
      ReceivedSyndrome(f, k);
      CoefTimesLinear(f, 1, s, k);
      if k > 0 {
        ReceivedSyndrome(f, k - 1);
        MulOne(f, Coef(s, k - 1));
        XorSelf(1);
        XorCancel(Eval(f, ThreeRoots(f), Exp(f, f.generatorBase)), 1);
      } else {
        XorZero(Syndrome(f, w, 0));
      }
    }
  }

  /** One error in the last symbol explains the syndromes, with an evaluator of two terms. */
  lemma ReceivedExplained(f: Field)
    requires Roomy(f)
    ensures InTable(f, 4) && Explains(f, Received(f), 4, [1], LongEvaluator(f)) && |LongEvaluator(f)| == 2
    ensures !IsCodeword(f, Received(f), 4)
  {
    hide IsField, Received, LongEvaluator, Times, Eval, ModEq, SyndromePoly, Locator, Inverse, Over, Syndrome;
    TableSizes(f);
    LastSymbol(f);
    LongEvaluatorShape(f);
    LongCongruence(f);
    ReceivedSyndrome(f, 0);
    ReceivedSyndrome(f, 1);
  }

  /** The decoder says that it has corrected the word, and leaves one that is no code word. */
  method ClaimsToCorrect(f: Field) returns (outcome: Outcome, message: array<nat>)
    requires Roomy(f)
    ensures InTable(f, 4) && outcome == Succeeded && !IsCodeword(f, message[..], 4)
  {
    hide IsField, Explains, Corrects, IsCodeword, Over, Magnitudes, Syndrome, LongEvaluator;
    ReceivedSyndrome(f, 0);
    var word := Received(f);
    message := new nat[4](i requires 0 <= i < |word| => word[i]);
    assert message[..] == word;
    ReceivedExplained(f);
    outcome := ReedSolomonDecode(f, message, 4);
  }
}
