// From the errors in a received word to the power sums that its syndromes are.
module ErrorPattern {
  import opened BitOps
  import opened GenericGF
  import opened PolyAlgebra
  import opened PolyRoots
  import opened ReedSolomonEncoder
  import opened KeyEquation

  // ----- powers of alpha

  lemma ExpAdd(f: Field, i: nat, j: nat)
    requires i + j < 2 * f.size
    ensures |f.expTable| == 2 * f.size
    ensures Mul(f, Exp(f, i), Exp(f, j)) == Exp(f, i + j)
  {
    hide Step, Multiply, Primitive, BuiltFrom;
    TableRange(f);
    var p, m := FieldPowers(f);
    var a := Exp(f, i);
    MultiplyIsSteps(f, p, m, a, Exp(f, j));
    LogOf(f, p, m, a);
    StepsAdd(p, f.size, f.logTable[a], j, 1);
    StepsAdd(p, f.size, j, f.logTable[a], 1);
    StepsAdd(p, f.size, j, i, 1);
  }

  lemma ExpLog(f: Field, a: nat)
    requires 0 < a < f.size
    ensures Log(f, a) < f.size - 1 && |f.expTable| == 2 * f.size
    ensures Exp(f, Log(f, a)) == a
  {
    hide Power, Primitive;
    TableRange(f);
    var p, m := FieldPowers(f);
  }

  lemma LogExp(f: Field, i: nat)
    requires i < f.size - 1
    ensures |f.expTable| == 2 * f.size && 0 < Exp(f, i) < f.size
    ensures Log(f, Exp(f, i)) == i
  {
    hide Power;
    TableRange(f);
    var p, m := FieldPowers(f);
    var j := Log(f, Exp(f, i));
    ExpLog(f, Exp(f, i));
    assert Power(p, f.size, i) == Power(p, f.size, j);
  }

  lemma InverseInvolution(f: Field, a: nat)
    requires 0 < a < f.size
    ensures Inverse(f, Inverse(f, a)) == a
  {
    hide Mul, IsField;
    var b := Inverse(f, a);
    MulInverse(f, a);
    MulInverse(f, b);
    MulAssoc(f, a, b, Inverse(f, b));
    MulOne(f, a);
    MulOne(f, Inverse(f, b));
  }

  lemma {:induction false} PowAdd(f: Field, a: nat, i: nat, j: nat)
    requires a < f.size
    ensures f.size >= 2 && Pow(f, a, i) < f.size
    ensures Mul(f, Pow(f, a, i), Pow(f, a, j)) == Pow(f, a, i + j)
  {
    hide Mul, IsField;
    TableRange(f);
    if i == 0 {
      PowRange(f, a, j);
      MulOne(f, Pow(f, a, j));
    } else {
      PowAdd(f, a, i - 1, j);
      MulAssoc(f, a, Pow(f, a, i - 1), Pow(f, a, j));
    }
  }

  lemma PowRange(f: Field, a: nat, i: nat)
    ensures f.size >= 2 && Pow(f, a, i) < f.size
  {
    TableRange(f);
  }

  lemma {:induction false} PowOfExp(f: Field, m: nat, e: nat)
    requires m < 2 * f.size
    ensures |f.expTable| == 2 * f.size
    ensures Pow(f, Exp(f, m), e) == Pow(f, Exp(f, 1), m * e)
  {
    hide Mul, IsField;
    TableRange(f);
    if e > 0 {
      PowOfExp(f, m, e - 1);
      ExpIsPow(f, m);
      MulSuccessor(m, e);
      var k := m * (e - 1);
      PowAdd(f, Exp(f, 1), m, k);
    }
  }

  lemma MulSuccessor(m: nat, e: nat)
    requires e > 0
    ensures m * (e - 1) >= 0 && m + m * (e - 1) == m * e
  {
  }

  lemma {:induction false} ExpIsPow(f: Field, m: nat)
    requires m < 2 * f.size
    ensures |f.expTable| == 2 * f.size
    ensures Exp(f, m) == Pow(f, Exp(f, 1), m)
  {
    hide Mul, IsField;
    TableRange(f);
    if m == 0 {
      ExpOfZero(f);
    } else {
      ExpIsPow(f, m - 1);
      ExpAdd(f, 1, m - 1);
    }
  }

  lemma ExpOfZero(f: Field)
    ensures |f.expTable| == 2 * f.size && f.size >= 2 && Exp(f, 0) == 1
  {
    TableRange(f);
    var p, m := FieldPowers(f);
  }

  /** Both are alpha^(m * e). */
  lemma ExpSymmetry(f: Field, m: nat, e: nat)
    requires m < 2 * f.size && e < 2 * f.size
    ensures |f.expTable| == 2 * f.size
    ensures Pow(f, Exp(f, m), e) == Pow(f, Exp(f, e), m)
  {
    PowOfExp(f, m, e);
    PowOfExp(f, e, m);
    MulCommutes(m, e);
  }

  lemma MulCommutes(a: nat, b: nat)
    ensures a * b == b * a
  {
  }

  // ----- the errors of a received word

  /** How many of the first k symbols differ. */
  function Distance(c: seq<nat>, w: seq<nat>, k: nat): (d: nat)
    requires |c| == |w| && k <= |c|
    ensures d <= k
  {
    if k == 0 then 0 else Distance(c, w, k - 1) + (if c[k - 1] != w[k - 1] then 1 else 0)
  }

  lemma {:induction false} DistanceZero(c: seq<nat>, w: seq<nat>, k: nat)
    requires |c| == |w| && k <= |c|
    ensures Distance(c, w, k) == 0 <==> c[..k] == w[..k]
  {
    if k > 0 {
      DistanceZero(c, w, k - 1);
      assert c[..k] == c[..k - 1] + [c[k - 1]] && w[..k] == w[..k - 1] + [w[k - 1]];
    }
  }

  /** The locators alpha^(n-1-i) of the differing positions i below k. */
  ghost function ErrorLocators(f: GF, c: seq<nat>, w: seq<nat>, k: nat): (xs: seq<nat>)
    requires |c| == |w| < |f.expTable| && k <= |c|
    ensures |xs| == Distance(c, w, k)
  {
    if k == 0 then []
    else
      ErrorLocators(f, c, w, k - 1) + (if c[k - 1] != w[k - 1] then [Exp(f, |c| - k)] else [])
  }

  /** The error values, each multiplied by its locator to the power b. */
  ghost function ErrorValues(f: Field, c: seq<nat>, w: seq<nat>, k: nat): (zs: seq<nat>)
    requires |c| == |w| < |f.expTable| && k <= |c|
    ensures |zs| == Distance(c, w, k)
  {
    if k == 0 then []
    else
      ErrorValues(f, c, w, k - 1) +
      (if c[k - 1] != w[k - 1]
       then [Mul(f, Xor(c[k - 1], w[k - 1]), Pow(f, Exp(f, |c| - k), f.generatorBase))] else [])
  }

  /** The power sum over the first k positions, errors or not. */
  ghost function PositionSum(f: Field, c: seq<nat>, w: seq<nat>, a: nat, k: nat): nat
    requires |c| == |w| && k <= |c|
  {
    if k == 0 then 0
    else Xor(PositionSum(f, c, w, a, k - 1), Mul(f, Xor(c[k - 1], w[k - 1]), Pow(f, a, |c| - k)))
  }

  /** Evaluating the first k symbols of both words and shifting the difference up to its place. */
  lemma {:induction false} EvalDifference(f: Field, c: seq<nat>, w: seq<nat>, a: nat, k: nat)
    requires |c| == |w| && k <= |c| && a < f.size
    ensures Mul(f, Xor(Eval(f, c[..k], a), Eval(f, w[..k], a)), Pow(f, a, |c| - k)) == PositionSum(f, c, w, a, k)
  {
    hide Mul, Xor, IsField, Pow;
    if k == 0 {
      assert c[..0] == [] && w[..0] == [];
      XorZero(0);
      MulZero(f, Pow(f, a, |c|));
    } else {
      var ec, ew := Eval(f, c[..k - 1], a), Eval(f, w[..k - 1], a);
      var d, p := Xor(ec, ew), Pow(f, a, |c| - k);
      assert c[..k][..k - 1] == c[..k - 1] && w[..k][..k - 1] == w[..k - 1];
      EvalDifference(f, c, w, a, k - 1);
      XorExchange(Mul(f, a, ec), c[k - 1], Mul(f, a, ew), w[k - 1]);
      MulXor(f, a, ec, ew);
      MulXor(f, p, Mul(f, a, d), Xor(c[k - 1], w[k - 1]));
      MulAssoc(f, d, a, p);
      MulComm(f, a, d);
      assert Pow(f, a, |c| - k + 1) == Mul(f, a, p) by {
        PowUnfold(f, a, |c| - k + 1);
      }
    }
  }

  lemma PowUnfold(f: Field, a: nat, i: nat)
    requires i > 0
    ensures Pow(f, a, i) == Mul(f, a, Pow(f, a, i - 1))
  {
  }

  /** The contribution of position k-1 at alpha^(i+b), read as a term of the power sum. */
  lemma TermAtLocator(f: Field, y: nat, e: nat, i: nat)
    requires InTable(f, i + 1) && e < f.size && |f.expTable| == 2 * f.size
    ensures Mul(f, y, Pow(f, Exp(f, i + f.generatorBase), e)) ==
            Mul(f, Mul(f, y, Pow(f, Exp(f, e), f.generatorBase)), Pow(f, Exp(f, e), i))
  {
    hide Mul, IsField, Pow;
    var x := Exp(f, e);
    TableRange(f);
    PowAdd(f, x, f.generatorBase, i);
    MulAssoc(f, y, Pow(f, x, f.generatorBase), Pow(f, x, i));
    ExpSymmetry(f, e, i + f.generatorBase);
  }

  /** The error positions alone give the same sum, written over the locators. */
  lemma {:induction false} PositionSumIsPowerSum(f: Field, c: seq<nat>, w: seq<nat>, i: nat, k: nat)
    requires |c| == |w| < f.size && k <= |c| && InTable(f, i + 1) && |f.expTable| == 2 * f.size
    ensures PositionSum(f, c, w, Exp(f, i + f.generatorBase), k) ==
            PowerSum(f, ErrorLocators(f, c, w, k), ErrorValues(f, c, w, k), i)
    decreases k
  {
    hide Mul, Xor, IsField, Pow, PowerSum;
    if k == 0 {
      PowerSumEmpty(f, i);
    } else {
      PositionSumIsPowerSum(f, c, w, i, k - 1);
      var xs, zs := ErrorLocators(f, c, w, k - 1), ErrorValues(f, c, w, k - 1);
      var y := Xor(c[k - 1], w[k - 1]);
      if c[k - 1] == w[k - 1] {
        XorSelf(c[k - 1]);
        MulZero(f, Pow(f, Exp(f, i + f.generatorBase), |c| - k));
        XorZero(PowerSum(f, xs, zs, i));
        assert ErrorLocators(f, c, w, k) == xs && ErrorValues(f, c, w, k) == zs;
      } else {
        var x := Exp(f, |c| - k);
        var z := Mul(f, y, Pow(f, x, f.generatorBase));
        assert ErrorLocators(f, c, w, k) == xs + [x] && ErrorValues(f, c, w, k) == zs + [z];
        PowerSumAppend(f, xs, zs, x, z, i);
        TermAtLocator(f, y, |c| - k, i);
      }
    }
  }

  lemma PowerSumEmpty(f: Field, i: nat)
    ensures PowerSum(f, [], [], i) == 0
  {
  }

  lemma PowerSumAppend(f: Field, xs: seq<nat>, zs: seq<nat>, x: nat, z: nat, i: nat)
    requires |xs| == |zs|
    ensures PowerSum(f, xs + [x], zs + [z], i) == Xor(PowerSum(f, xs, zs, i), Mul(f, z, Pow(f, x, i)))
  {
    hide Mul, Xor, IsField, Pow;
    assert (xs + [x])[..|xs|] == xs && (zs + [z])[..|zs|] == zs;
  }

  /** The syndromes of two words differ by the power sums of the errors between them. */
  lemma SyndromeDifference(f: Field, c: seq<nat>, w: seq<nat>, n: nat, i: nat)
    requires |c| == |w| < f.size && |f.expTable| == 2 * f.size && InTable(f, n) && i < n
    requires Over(f, c) && Over(f, w)
    ensures Xor(Syndrome(f, c, i), Syndrome(f, w, i)) ==
            PowerSum(f, ErrorLocators(f, c, w, |c|), ErrorValues(f, c, w, |c|), i)
  {
    hide Mul, Xor, IsField, Eval, PositionSum, PowerSum;
    var a := Exp(f, i + f.generatorBase);
    TableRange(f);
    EvalDifference(f, c, w, a, |c|);
    PositionSumIsPowerSum(f, c, w, i, |c|);
    assert c[..|c|] == c && w[..|c|] == w;
    EvalRange(f, c, a);
    EvalRange(f, w, a);
    assert Pow(f, a, 0) == 1;
    XorInRange(f, Eval(f, c, a), Eval(f, w, a));
    MulOne(f, Xor(Eval(f, c, a), Eval(f, w, a)));
  }

  /** The syndromes of a received word are the power sums of its errors. */
  lemma SyndromesArePowerSums(f: Field, c: seq<nat>, w: seq<nat>, n: nat, i: nat)
    requires |c| == |w| < f.size && |f.expTable| == 2 * f.size && InTable(f, n) && i < n
    requires Over(f, c) && Over(f, w)
    requires IsCodeword(f, c, n)
    ensures Syndrome(f, w, i) == PowerSum(f, ErrorLocators(f, c, w, |c|), ErrorValues(f, c, w, |c|), i)
  {
    hide Mul, Xor, IsField, PowerSum, Syndrome;
    SyndromeDifference(f, c, w, n, i);
    assert Syndrome(f, c, i) == 0;
    XorZero(Syndrome(f, w, i));
  }

  /** The locator x and scaled value z stand for an error at one of the first k positions. */
  ghost predicate Describes(f: Field, c: seq<nat>, w: seq<nat>, k: nat, x: nat, z: nat)
    requires |c| == |w| && k <= |c| && |f.logTable| == f.size
  {
    && 0 < x < f.size && 0 < z < f.size
    && |c| - k <= Log(f, x) < |c|
    && var p := |c| - 1 - Log(f, x);
       c[p] != w[p] && z == Mul(f, Xor(c[p], w[p]), Pow(f, x, f.generatorBase))
  }

  ghost predicate AllDescribed(f: Field, c: seq<nat>, w: seq<nat>, k: nat, xs: seq<nat>, zs: seq<nat>)
    requires |c| == |w| && k <= |c| && |f.logTable| == f.size && |xs| == |zs|
  {
    forall j :: 0 <= j < |xs| ==> Describes(f, c, w, k, xs[j], zs[j])
  }

  lemma NewError(f: Field, c: seq<nat>, w: seq<nat>, k: nat, x: nat, z: nat)
    requires |c| == |w| < f.size && 0 < k <= |c| && |f.expTable| == 2 * f.size && |f.logTable| == f.size
    requires Over(f, c) && Over(f, w) && c[k - 1] != w[k - 1]
    requires x == Exp(f, |c| - k) && z == Mul(f, Xor(c[k - 1], w[k - 1]), Pow(f, x, f.generatorBase))
    ensures Describes(f, c, w, k, x, z)
  {
    hide Mul, Xor, IsField, Pow;
    var y := Xor(c[k - 1], w[k - 1]);
    LogExp(f, |c| - k);
    XorInRange(f, c[k - 1], w[k - 1]);
    XorCancel(c[k - 1], w[k - 1]);
    PowNonzero(f, x, f.generatorBase);
    MulNonzero(f, y, Pow(f, x, f.generatorBase));
  }

  /** Every listed locator stands for an error. */
  lemma {:induction false} ErrorListing(f: Field, c: seq<nat>, w: seq<nat>, k: nat)
    requires |c| == |w| < f.size && k <= |c| && |f.expTable| == 2 * f.size && |f.logTable| == f.size
    requires Over(f, c) && Over(f, w)
    ensures AllDescribed(f, c, w, k, ErrorLocators(f, c, w, k), ErrorValues(f, c, w, k))
  {
    hide Mul, Xor, IsField, Pow, Over;
    if k > 0 {
      ErrorListing(f, c, w, k - 1);
      var xs, zs := ErrorLocators(f, c, w, k - 1), ErrorValues(f, c, w, k - 1);
      if c[k - 1] != w[k - 1] {
        var x := Exp(f, |c| - k);
        var z := Mul(f, Xor(c[k - 1], w[k - 1]), Pow(f, x, f.generatorBase));
        NewError(f, c, w, k, x, z);
        assert ErrorLocators(f, c, w, k) == xs + [x];
        assert ErrorValues(f, c, w, k) == zs + [z];
      } else {
        assert ErrorLocators(f, c, w, k) == xs;
        assert ErrorValues(f, c, w, k) == zs;
      }
      forall j | 0 <= j < |xs| ensures Describes(f, c, w, k, xs[j], zs[j]) {
        assert Describes(f, c, w, k - 1, xs[j], zs[j]);
      }
    }
  }

  /** Every error is listed. */
  lemma {:induction false} ErrorListed(f: Field, c: seq<nat>, w: seq<nat>, k: nat, p: nat)
    requires |c| == |w| < |f.expTable| && p < k <= |c| && c[p] != w[p]
    ensures Exp(f, |c| - 1 - p) in ErrorLocators(f, c, w, k)
  {
    hide IsField;
    if p < k - 1 {
      ErrorListed(f, c, w, k - 1, p);
    }
  }

  lemma {:induction false} PowNonzero(f: Field, x: nat, i: nat)
    requires 0 < x < f.size
    ensures 0 < Pow(f, x, i) < f.size
  {
    hide Mul, IsField;
    TableRange(f);
    if i > 0 {
      PowNonzero(f, x, i - 1);
      MulNonzero(f, x, Pow(f, x, i - 1));
    }
  }

  lemma {:induction false} ErrorLocatorsDistinct(f: Field, c: seq<nat>, w: seq<nat>, k: nat)
    requires |c| == |w| < f.size && k <= |c| && |f.expTable| == 2 * f.size && |f.logTable| == f.size
    requires Over(f, c) && Over(f, w)
    ensures Locators(f, ErrorLocators(f, c, w, k))
  {
    hide Mul, Xor, IsField, Pow, Over;
    if k > 0 {
      var xs, zs := ErrorLocators(f, c, w, k - 1), ErrorValues(f, c, w, k - 1);
      ErrorLocatorsDistinct(f, c, w, k - 1);
      ErrorListing(f, c, w, k - 1);
      LogExp(f, |c| - k);
      forall j | 0 <= j < |xs| ensures xs[j] != Exp(f, |c| - k) {
        assert Describes(f, c, w, k - 1, xs[j], zs[j]);
      }
    }
  }
}
