// Systematic Reed-Solomon encoding (zxing-core/src/ReedSolomonEncoder.h and ReedSolomonEncoder.cpp).
module ReedSolomonEncoder {
  import opened BitOps
  import opened GenericGF
  import opened PolyAlgebra
  import opened PolyRoots
  import opened GenericGFPoly

  /** The exponents b .. b + n - 1 are in the range of the exp table; outside it the source throws. */
  predicate InTable(f: GF, n: nat) {
    n + f.generatorBase <= |f.expTable|
  }

  /** The i-th syndrome of a word. */
  ghost function Syndrome(f: Field, s: Poly, i: nat): nat
    requires InTable(f, i + 1)
  {
    Eval(f, s, Exp(f, i + f.generatorBase))
  }

  /** s is a code word with n check symbols: it vanishes at alpha^b .. alpha^(b+n-1). */
  ghost predicate IsCodeword(f: Field, s: Poly, n: nat)
    requires InTable(f, n)
  {
    forall i: nat :: i < n ==> Syndrome(f, s, i) == 0
  }

  /** (x - alpha^b) ... (x - alpha^(b+d-1)). */
  ghost function Generator(f: Field, d: nat): Poly
    requires InTable(f, d)
  {
    if d == 0 then ONE else Times(f, Generator(f, d - 1), [1, Exp(f, d - 1 + f.generatorBase)])
  }

  lemma {:induction false} GeneratorShape(f: Field, d: nat)
    requires InTable(f, d)
    ensures Canonical(Generator(f, d)) && Over(f, Generator(f, d)) && !IsZero(Generator(f, d))
    ensures |Generator(f, d)| == d + 1
  {
    hide Times, IsField;
    TableRange(f);
    if d > 0 {
      GeneratorShape(f, d - 1);
      var factor := [1, Exp(f, d - 1 + f.generatorBase)];
      TimesLength(f, Generator(f, d - 1), factor);
      OverTimes(f, Generator(f, d - 1), factor);
    }
  }

  lemma GeneratorStep(f: Field, d: nat)
    requires d > 0 && InTable(f, d)
    ensures Generator(f, d) == Times(f, Generator(f, d - 1), [1, Exp(f, d - 1 + f.generatorBase)])
    ensures Canonical([1, Exp(f, d - 1 + f.generatorBase)]) && Over(f, [1, Exp(f, d - 1 + f.generatorBase)])
  {
    hide Times, IsField;
    TableRange(f);
  }

  lemma {:induction false} GeneratorRoots(f: Field, d: nat, i: nat)
    requires InTable(f, d) && i < d
    ensures Eval(f, Generator(f, d), Exp(f, i + f.generatorBase)) == 0
  {
    hide Times, IsField, Xor, Mul;
    TableRange(f);
    var a := Exp(f, i + f.generatorBase);
    var e := Exp(f, d - 1 + f.generatorBase);
    var factor := [1, e];
    hide Eval;
    EvalTimes(f, Generator(f, d - 1), factor, a);
    if i < d - 1 {
      GeneratorRoots(f, d - 1, i);
      MulZero(f, Eval(f, factor, a));
    } else {
      EvalMonicFactor(f, e, a);
      XorSelf(e);
      MulZero(f, Eval(f, Generator(f, d - 1), a));
    }
  }

  lemma EvalMonicFactor(f: Field, e: nat, a: nat)
    requires a < f.size
    ensures Eval(f, [1, e], a) == Xor(a, e)
  {
    hide Xor, Mul, IsField;
    assert [1, e][..1] == [1] && [1][..0] == [];
    MulZero(f, a);
    XorZero(1);
    assert Eval(f, [1], a) == 1;
    MulOne(f, a);
  }

  class Encoder {
    var field: GF
    var cachedGenerators: seq<Poly>

    ghost predicate Valid()
      reads this
    {
      && IsField(field)
      && 0 < |cachedGenerators| && InTable(field, |cachedGenerators| - 1)
      && forall d: nat :: d < |cachedGenerators| ==> cachedGenerators[d] == Generator(field, d)
    }

    constructor (f: Field)
      requires f.generatorBase <= |f.expTable|
      ensures Valid() && field == f
    {
      field := f;
      cachedGenerators := [[1]];
    }

    /** Extends the cache up to the requested degree and returns that entry. */
    method BuildGenerator(degree: nat) returns (generator: GFPoly)
      requires Valid() && InTable(field, degree)
      modifies this`cachedGenerators
      ensures Valid() && fresh(generator) && generator.Valid() && generator.field == field
      ensures old(cachedGenerators) <= cachedGenerators
      ensures generator.coefficients == Generator(field, degree)
    {
      hide Times, IsField, Over, Canonical, PolyAlgebra.Normalize, Generator;
      var f: Field := field;
      TableRange(f);
      var cachedGenSize := |cachedGenerators|;
      if degree >= cachedGenSize {
        GeneratorShape(f, cachedGenSize - 1);
        var lastGenerator := new GFPoly.FromCoefficients(f, cachedGenerators[cachedGenSize - 1]);
        for d := cachedGenSize to degree + 1
          invariant fresh(lastGenerator) && lastGenerator.Valid() && lastGenerator.field == f == field
          invariant Valid() && |cachedGenerators| == d
          invariant old(cachedGenerators) <= cachedGenerators
          invariant lastGenerator.coefficients == Generator(f, d - 1)
        {
          var factor := new GFPoly.FromCoefficients(f, [1, Exp(f, d - 1 + f.generatorBase)]);
          GeneratorStep(f, d);
          lastGenerator.MultiplyBy(factor);
          cachedGenerators := cachedGenerators + [lastGenerator.coefficients];
        }
      }
      GeneratorShape(f, degree);
      generator := new GFPoly.FromCoefficients(f, cachedGenerators[degree]);
    }

    /** Replaces the last numECCodeWords symbols of the message by check symbols. The result is false when
        the source throws for an invalid count. */
    method Encode(message: array<nat>, numECCodeWords: nat) returns (ok: bool)
      requires Valid() && Over(field, message[..])
      requires InTable(field, numECCodeWords)
      modifies message, this`cachedGenerators
      ensures Valid() && field == old(field)
      ensures ok <==> 0 < numECCodeWords < message.Length
      ensures !ok ==> message[..] == old(message[..])
      ensures ok ==> message[..message.Length - numECCodeWords] == old(message[..message.Length - numECCodeWords])
      ensures ok ==> Over(field, message[..]) && IsCodeword(field, message[..], numECCodeWords)
    {
      hide Times, IsField, Plus, IsCodeword, Generator, PolyAlgebra.Normalize, Monomial, Xor, Mul;
      if numECCodeWords == 0 || numECCodeWords >= message.Length {
        return false;
      }
      ok := true;
      var f: Field := field;
      TableRange(f);
      ghost var data := message[..message.Length - numECCodeWords];
      var info := new GFPoly.FromCoefficients(f, message[..message.Length - numECCodeWords]);
      info.MultiplyByMonomial(1, numECCodeWords);
      ghost var dividend := info.coefficients;
      assert dividend == Times(f, Monomial(1, numECCodeWords), PolyAlgebra.Normalize(data));
      var quotient := new GFPoly();
      var generator := BuildGenerator(numECCodeWords);
      GeneratorShape(f, numECCodeWords);
      var divided := info.Divide(generator, quotient);
      var coefficients := info.coefficients;
      var numZeroCoefficients := numECCodeWords - |coefficients|;
      var tail := message.Length - numECCodeWords;
      for i := 0 to numZeroCoefficients
        modifies message
        invariant message[..tail] == data
        invariant forall k :: tail <= k < tail + i ==> message[k] == 0
      {
        message[tail + i] := 0;
      }
      var start := tail + numZeroCoefficients;
      for i := 0 to |coefficients|
        modifies message
        invariant message[..tail] == data
        invariant forall k :: tail <= k < start ==> message[k] == 0
        invariant forall k :: start <= k < start + i ==> message[k] == coefficients[k - start]
      {
        message[start + i] := coefficients[i];
      }
      assert message[..] == data + Zeros(numZeroCoefficients) + coefficients;
      SystematicCodeword(f, data, numECCodeWords, dividend, quotient.coefficients, coefficients);
    }
  }

  lemma CoefInField(f: Field, p: Poly, k: int)
    requires Over(f, p)
    ensures k >= 0 ==> Coef(p, k) < f.size
  {
    hide IsField;
    TableRange(f);
  }

  lemma CoefBehind(data: Poly, n: nat, r: Poly, k: nat)
    requires |r| <= n
    ensures k < n ==> Coef(data + Zeros(n - |r|) + r, k) == Coef(r, k)
    ensures k >= n ==> Coef(data + Zeros(n - |r|) + r, k) == Coef(data, k - n) && Coef(r, k) == 0
  {
  }

  /** Shifting the data up and adding the remainder is writing the remainder behind the data. */
  lemma CoefSystematic(f: Field, data: Poly, n: nat, r: Poly, k: nat)
    requires Over(f, data) && |r| <= n
    ensures Coef(data + Zeros(n - |r|) + r, k) ==
            Xor(Coef(Times(f, Monomial(1, n), PolyAlgebra.Normalize(data)), k), Coef(r, k))
  {
    hide Times, IsField, Monomial, Xor, Mul, Conv, Scaled, Coef;
    CoefBehind(data, n, r, k);
    TableRange(f);
    CoefInField(f, data, k - n);
    var norm := PolyAlgebra.Normalize(data);
    TimesMonomial(f, 1, n, norm);
    CoefNormalize(Scaled(f, 1, norm) + Zeros(n), k);
    CoefAppendZeros(Scaled(f, 1, norm), n, k);
    XorZero(Coef(r, k));
    if k >= n {
      CoefScaled(f, 1, norm, k - n);
      CoefNormalize(data, k - n);
      MulOne(f, Coef(data, k - n));
      XorZero(Coef(data, k - n));
    }
  }

  /** Data followed by the remainder of data * x^n modulo the generator is a code word. */
  lemma SystematicCodeword(f: Field, data: Poly, n: nat, dividend: Poly, q: Poly, r: Poly)
    requires InTable(f, n) && n > 0 && |data| > 0 && Over(f, data)
    requires dividend == Times(f, Monomial(1, n), PolyAlgebra.Normalize(data))
    requires IsDivision(f, dividend, Generator(f, n), q, r)
    requires |r| <= n
    ensures Over(f, data + Zeros(n - |r|) + r)
    ensures IsCodeword(f, data + Zeros(n - |r|) + r, n)
  {
    hide Times, IsField, Plus, Monomial, Xor, Mul, Conv, Generator, Eval, Scaled, Coef, PolyAlgebra.Normalize;
    TableRange(f);
    var g := Generator(f, n);
    var word := data + Zeros(n - |r|) + r;
    var norm := PolyAlgebra.Normalize(data);
    GeneratorShape(f, n);
    OverNormalize(f, data);
    forall k: nat ensures Coef(Plus(dividend, r), k) == Coef(PolyAlgebra.Normalize(word), k) {
      CoefPlus(dividend, r, k);
      CoefNormalize(word, k);
      CoefSystematic(f, data, n, r, k);
    }
    Extensional(Plus(dividend, r), PolyAlgebra.Normalize(word));
    PlusSelf(Times(f, q, g), r);
    assert PolyAlgebra.Normalize(word) == Times(f, q, g);
    forall i: nat | i < n ensures Syndrome(f, word, i) == 0 {
      var a := Exp(f, i + f.generatorBase);
      GeneratorRoots(f, n, i);
      EvalTimes(f, q, g, a);
      MulZero(f, Eval(f, q, a));
      EvalNormalize(f, word, a);
    }
  }
}
