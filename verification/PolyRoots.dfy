// Evaluation, division and roots of polynomials over a Galois field.
module PolyRoots {
  import opened BitOps
  import opened GenericGF
  import opened PolyAlgebra

  /** Horner's rule. */
  function Eval(f: Field, p: Poly, a: nat): nat {
    if |p| == 0 then 0 else Xor(Mul(f, a, Eval(f, p[..|p| - 1], a)), p[|p| - 1])
  }

  lemma {:induction false} EvalRange(f: Field, p: Poly, a: nat)
    requires Over(f, p)
    ensures f.size >= 2 && Eval(f, p, a) < f.size
  {
    hide Xor, Mul;
    TableRange(f);
    if |p| > 0 {
      EvalRange(f, p[..|p| - 1], a);
      XorInRange(f, Mul(f, a, Eval(f, p[..|p| - 1], a)), p[|p| - 1]);
    }
  }

  lemma {:induction false} EvalLeadingZero(f: Field, p: Poly, a: nat)
    requires |p| > 0 && p[0] == 0
    ensures Eval(f, p, a) == Eval(f, p[1..], a)
  {
    hide Xor, Mul;
    if |p| == 1 {
      MulZero(f, a);
      XorZero(0);
      assert p[..0] == [];
    } else {
      var p' := p[..|p| - 1];
      EvalLeadingZero(f, p', a);
      assert p[1..][..|p[1..]| - 1] == p'[1..];
    }
  }

  lemma {:induction false} EvalNormalize(f: Field, p: Poly, a: nat)
    ensures Eval(f, Normalize(p), a) == Eval(f, p, a)
  {
    hide Xor, Mul;
    if |p| == 0 {
      EvalLeadingZero(f, [0], a);
    } else if |p| > 1 && p[0] == 0 {
      EvalLeadingZero(f, p, a);
      EvalNormalize(f, p[1..], a);
    }
  }

  lemma {:induction false} EvalRawSum(f: Field, p: Poly, q: Poly, a: nat)
    ensures Eval(f, RawSum(p, q), a) == Xor(Eval(f, p, a), Eval(f, q, a))
    decreases |p| + |q|
  {
    hide Xor, Mul;
    var r := RawSum(p, q);
    if |r| == 0 {
      XorZero(0);
    } else {
      var p' := if |p| == 0 then p else p[..|p| - 1];
      var q' := if |q| == 0 then q else q[..|q| - 1];
      assert r[..|r| - 1] == RawSum(p', q') by {
        forall i | 0 <= i < |r| - 1 ensures r[i] == RawSum(p', q')[i] {
          assert Coef(p, |r| - 1 - i) == Coef(p', |r| - 2 - i);
          assert Coef(q, |r| - 1 - i) == Coef(q', |r| - 2 - i);
        }
      }
      EvalRawSum(f, p', q', a);
      MulZero(f, a);
      XorZero(0);
      assert Eval(f, p, a) == Xor(Mul(f, a, Eval(f, p', a)), Coef(p, 0));
      assert Eval(f, q, a) == Xor(Mul(f, a, Eval(f, q', a)), Coef(q, 0));
      assert r[|r| - 1] == Xor(Coef(p, 0), Coef(q, 0));
      MulXor(f, a, Eval(f, p', a), Eval(f, q', a));
      XorExchange(Mul(f, a, Eval(f, p', a)), Coef(p, 0), Mul(f, a, Eval(f, q', a)), Coef(q, 0));
    }
  }

  lemma EvalPlus(f: Field, p: Poly, q: Poly, a: nat)
    ensures Eval(f, Plus(p, q), a) == Xor(Eval(f, p, a), Eval(f, q, a))
  {
    hide Eval, Xor;
    EvalRawSum(f, p, q, a);
    EvalNormalize(f, RawSum(p, q), a);
  }

  lemma {:induction false} EvalScaled(f: Field, c: nat, p: Poly, a: nat)
    ensures Eval(f, Scaled(f, c, p), a) == Mul(f, c, Eval(f, p, a))
    decreases |p|
  {
    hide Xor, Mul;
    if |p| == 0 {
      MulZero(f, c);
    } else {
      var p', d := p[..|p| - 1], p[|p| - 1];
      var e := Eval(f, p', a);
      assert Scaled(f, c, p)[..|p| - 1] == Scaled(f, c, p');
      EvalScaled(f, c, p', a);
      MulXor(f, c, Mul(f, a, e), d);
      MulAssoc(f, a, c, e);
      MulAssoc(f, c, a, e);
      MulComm(f, a, c);
    }
  }

  lemma TimesUnfold(f: Field, p: Poly, q: Poly)
    requires |p| > 0 && |q| > 0
    ensures Times(f, p, q) ==
            Plus(Normalize(Times(f, p[..|p| - 1], q) + [0]), Normalize(Scaled(f, p[|p| - 1], q)))
  {
    hide Xor, Mul, Times, Plus, Conv, Scaled;
    var p', c := p[..|p| - 1], p[|p| - 1];
    var high, low := Normalize(Times(f, p', q) + [0]), Normalize(Scaled(f, c, q));
    forall k: nat ensures Coef(Times(f, p, q), k) == Coef(Plus(high, low), k) {
      CoefTimes(f, p, q, k);
      ConvUnfold(f, p, q, k);
      CoefPlus(high, low, k);
      CoefNormalize(Times(f, p', q) + [0], k);
      CoefNormalize(Scaled(f, c, q), k);
      CoefScaled(f, c, q, k);
      if k > 0 {
        CoefTimes(f, p', q, k - 1);
        assert Coef(Times(f, p', q) + [0], k) == Coef(Times(f, p', q), k - 1);
      }
    }
    Extensional(Times(f, p, q), Plus(high, low));
  }

  lemma {:induction false} EvalTimes(f: Field, p: Poly, q: Poly, a: nat)
    requires |q| > 0
    ensures Eval(f, Times(f, p, q), a) == Mul(f, Eval(f, p, a), Eval(f, q, a))
    decreases |p|
  {
    hide Xor, Mul, Times, Plus, Scaled;
    var eq := Eval(f, q, a);
    if |p| == 0 {
      MulZero(f, eq);
      TimesEmpty(f, q);
      EvalLeadingZero(f, ZERO, a);
    } else {
      var p', c := p[..|p| - 1], p[|p| - 1];
      var t := Times(f, p', q);
      TimesUnfold(f, p, q);
      EvalPlus(f, Normalize(t + [0]), Normalize(Scaled(f, c, q)), a);
      EvalNormalize(f, t + [0], a);
      EvalNormalize(f, Scaled(f, c, q), a);
      EvalScaled(f, c, q, a);
      assert (t + [0])[..|t|] == t;
      XorZero(Mul(f, a, Eval(f, t, a)));
      EvalTimes(f, p', q, a);
      MulAssoc(f, a, Eval(f, p', a), eq);
      MulXor(f, eq, Mul(f, a, Eval(f, p', a)), c);
    }
  }

  lemma TimesEmpty(f: Field, q: Poly)
    ensures Times(f, [], q) == ZERO
  {
  }

  lemma TimesUpper(f: Field, p: Poly, q: Poly)
    requires |p| > 0 && |q| > 0
    ensures |Times(f, p, q)| <= |p| + |q| - 1
  {
    hide Conv;
  }

  lemma ConstantOfTimes(f: Field, p: Poly, q: Poly)
    requires |p| > 0
    ensures Coef(Times(f, p, q), 0) == Mul(f, Coef(p, 0), Coef(q, 0))
  {
    hide Xor, Mul, Times;
    CoefTimes(f, p, q, 0);
    ConvUnfold(f, p, q, 0);
    XorZero(Mul(f, Coef(p, 0), Coef(q, 0)));
  }

  // ----- monomials and constants

  /** c * x^n, for c nonzero or n = 0. */
  function Monomial(c: nat, n: nat): Poly {
    [c] + Zeros(n)
  }

  lemma {:induction false} ConvMonomial(f: Field, c: nat, n: nat, q: Poly, k: nat)
    ensures Conv(f, Monomial(c, n), q, k) == if k < n then 0 else Mul(f, c, Coef(q, k - n))
    decreases n
  {
    hide Xor, Mul;
    var p := Monomial(c, n);
    ConvUnfold(f, p, q, k);
    XorZero(0);
    if n == 0 {
      assert p[..0] == [];
      XorZero(Mul(f, c, Coef(q, k)));
    } else {
      assert p[..|p| - 1] == Monomial(c, n - 1);
      MulZero(f, Coef(q, k));
      if k > 0 {
        ConvMonomial(f, c, n - 1, q, k - 1);
        XorZero(Conv(f, Monomial(c, n - 1), q, k - 1));
      }
    }
  }

  lemma CoefAppendZeros(p: Poly, n: nat, k: nat)
    ensures Coef(p + Zeros(n), k) == if k < n then 0 else Coef(p, k - n)
  {
  }

  lemma TimesMonomial(f: Field, c: nat, n: nat, q: Poly)
    ensures Times(f, Monomial(c, n), q) == Normalize(Scaled(f, c, q) + Zeros(n))
  {
    hide Xor, Mul, Times, Conv, Scaled, Monomial;
    forall k: nat ensures Coef(Times(f, Monomial(c, n), q), k) == Coef(Normalize(Scaled(f, c, q) + Zeros(n)), k) {
      CoefTimes(f, Monomial(c, n), q, k);
      ConvMonomial(f, c, n, q, k);
      CoefNormalize(Scaled(f, c, q) + Zeros(n), k);
      CoefAppendZeros(Scaled(f, c, q), n, k);
      if k >= n {
        CoefScaled(f, c, q, k - n);
      }
    }
    Extensional(Times(f, Monomial(c, n), q), Normalize(Scaled(f, c, q) + Zeros(n)));
  }

  // ----- division with remainder

  lemma LeadingCancels(p: Poly, q: Poly)
    requires Canonical(p) && |p| == |q| && p[0] == q[0]
    ensures |Plus(p, q)| < |p| || (|p| == 1 && Plus(p, q) == ZERO)
  {
    hide Xor;
    var r := RawSum(p, q);
    assert r[0] == Xor(Coef(p, |p| - 1), Coef(q, |p| - 1));
    XorSelf(p[0]);
  }

  ghost predicate IsDivision(f: Field, a: Poly, b: Poly, q: Poly, r: Poly) {
    && Canonical(q) && Canonical(r) && Over(f, q) && Over(f, r)
    && a == Plus(Times(f, q, b), r)
    && (IsZero(r) || |r| < |b|)
  }

  lemma {:induction false} DivisionExists(f: Field, a: Poly, b: Poly) returns (q: Poly, r: Poly)
    requires Canonical(a) && Over(f, a) && Canonical(b) && Over(f, b) && !IsZero(b)
    ensures IsDivision(f, a, b, q, r)
    decreases |a|
  {
    hide Xor, Mul, Times, Plus;
    TableRange(f);
    if |a| < |b| || IsZero(a) {
      q, r := ZERO, a;
      TimesZero(f, b);
      PlusZero(a);
    } else {
      var c := Mul(f, a[0], Inverse(f, b[0]));
      var m := Monomial(c, |a| - |b|);
      MulNonzero(f, a[0], Inverse(f, b[0]));
      TimesLength(f, m, b);
      MulAssoc(f, a[0], Inverse(f, b[0]), b[0]);
      MulInverse(f, b[0]);
      MulOne(f, a[0]);
      var t := Times(f, m, b);
      var a' := Plus(a, t);
      LeadingCancels(a, t);
      OverTimes(f, m, b);
      OverPlus(f, a, t);
      PlusComm(a', t);
      PlusSelf(a, t);
      if a' == ZERO {
        q, r := m, ZERO;
        PlusComm(a', t);
      } else {
        var q', r' := DivisionExists(f, a', b);
        q, r := Plus(m, q'), r';
        OverPlus(f, m, q');
        TimesPlus(f, b, m, q');
        PlusAssoc(t, Times(f, q', b), r');
      }
    }
  }

  // ----- roots

  /** X*x + 1, which vanishes exactly at the inverse of X. */
  function Linear(x: nat): Poly {
    [x, 1]
  }

  lemma EvalLinear(f: Field, x: nat, a: nat)
    ensures Eval(f, Linear(x), a) == Xor(Mul(f, a, x), 1)
  {
    hide Xor, Mul;
    var p := Linear(x);
    assert p[..1] == [x] && [x][..0] == [];
    MulZero(f, a);
    XorZero(x);
    assert Eval(f, [x], a) == x;
  }

  lemma LinearRoot(f: Field, x: nat, y: nat)
    requires 0 < x < f.size && 0 < y < f.size
    ensures Eval(f, Linear(x), Inverse(f, y)) == 0 <==> x == y
  {
    hide Xor, Mul, Eval;
    EvalLinear(f, x, Inverse(f, y));
    XorCancel(Mul(f, Inverse(f, y), x), 1);
    MulInverse(f, y);
    MulAssoc(f, y, Inverse(f, y), x);
    MulOne(f, x);
    MulOne(f, y);
  }

  lemma RootFactor(f: Field, t: Poly, x: nat) returns (u: Poly)
    requires Canonical(t) && Over(f, t) && 0 < x < f.size
    requires Eval(f, t, Inverse(f, x)) == 0
    ensures Canonical(u) && Over(f, u) && t == Times(f, u, Linear(x))
  {
    hide Xor, Mul, Times, Plus;
    var a := Inverse(f, x);
    TableRange(f);
    var q, r := DivisionExists(f, t, Linear(x));
    var qx := Times(f, q, Linear(x));
    EvalPlus(f, qx, r, a);
    EvalTimes(f, q, Linear(x), a);
    LinearRoot(f, x, x);
    MulZero(f, Eval(f, q, a));
    assert |r| == 1;
    assert r[..0] == [];
    MulZero(f, a);
    XorZero(Eval(f, r, a));
    XorZero(r[0]);
    assert Eval(f, r, a) == r[0];
    assert r == ZERO;
    PlusZero(qx);
    u := q;
  }

  // ----- the locator polynomial of a list of error locators

  ghost predicate Locators(f: GF, xs: seq<nat>) {
    && (forall i :: 0 <= i < |xs| ==> 0 < xs[i] < f.size)
    && (forall i, j :: 0 <= i < j < |xs| ==> xs[i] != xs[j])
  }

  ghost function Locator(f: Field, xs: seq<nat>): Poly {
    if |xs| == 0 then ONE else Times(f, Locator(f, xs[..|xs| - 1]), Linear(xs[|xs| - 1]))
  }

  lemma {:induction false} LocatorShape(f: Field, xs: seq<nat>)
    requires Locators(f, xs)
    ensures Canonical(Locator(f, xs)) && Over(f, Locator(f, xs)) && !IsZero(Locator(f, xs))
    ensures |Locator(f, xs)| == |xs| + 1
    ensures Coef(Locator(f, xs), 0) == 1
  {
    hide Xor, Mul, Times;
    TableRange(f);
    if |xs| > 0 {
      var n := |xs| - 1;
      LocatorShape(f, xs[..n]);
      TimesLength(f, Locator(f, xs[..n]), Linear(xs[n]));
      OverTimes(f, Locator(f, xs[..n]), Linear(xs[n]));
      ConstantOfTimes(f, Locator(f, xs[..n]), Linear(xs[n]));
      MulOne(f, 1);
    }
  }

  lemma {:induction false} LocatorRoot(f: Field, xs: seq<nat>, y: nat)
    requires Locators(f, xs) && 0 < y < f.size
    ensures Eval(f, Locator(f, xs), Inverse(f, y)) == 0 <==> y in xs
  {
    hide Xor, Mul, Times;
    TableRange(f);
    var a := Inverse(f, y);
    if |xs| == 0 {
      assert ONE[..0] == [];
      MulZero(f, a);
      XorZero(1);
    } else {
      hide Eval;
      var n := |xs| - 1;
      var l, x := Locator(f, xs[..n]), xs[n];
      LocatorShape(f, xs[..n]);
      EvalTimes(f, l, Linear(x), a);
      LocatorRoot(f, xs[..n], y);
      LinearRoot(f, x, y);
      EvalRange(f, l, a);
      EvalRange(f, Linear(x), a);
      MulZeroIff(f, Eval(f, l, a), Eval(f, Linear(x), a));
      assert xs == xs[..n] + [x];
    }
  }

  lemma MulZeroIff(f: Field, a: nat, b: nat)
    requires a < f.size && b < f.size
    ensures Mul(f, a, b) == 0 <==> a == 0 || b == 0
  {
    hide Multiply;
    if a != 0 && b != 0 {
      MulNonzero(f, a, b);
    } else {
      MulZero(f, a);
      MulZero(f, b);
    }
  }

  /** A polynomial that vanishes at every listed root is a multiple of the locator. */
  lemma {:induction false} LocatorDivides(f: Field, t: Poly, xs: seq<nat>) returns (u: Poly)
    requires Canonical(t) && Over(f, t) && Locators(f, xs)
    requires forall i :: 0 <= i < |xs| ==> Eval(f, t, Inverse(f, xs[i])) == 0
    ensures Canonical(u) && Over(f, u) && t == Times(f, u, Locator(f, xs))
    decreases |xs|
  {
    hide Xor, Mul, Times, Eval;
    TableRange(f);
    if |xs| == 0 {
      u := t;
      TimesOne(f, t);
    } else {
      var n := |xs| - 1;
      var x := xs[n];
      var v := RootFactor(f, t, x);
      forall i | 0 <= i < n ensures Eval(f, v, Inverse(f, xs[..n][i])) == 0 {
        var a := Inverse(f, xs[i]);
        EvalTimes(f, v, Linear(x), a);
        LinearRoot(f, x, xs[i]);
        EvalRange(f, v, a);
        EvalRange(f, Linear(x), a);
        MulZeroIff(f, Eval(f, v, a), Eval(f, Linear(x), a));
      }
      u := LocatorDivides(f, v, xs[..n]);
      LocatorShape(f, xs[..n]);
      TimesAssoc(f, u, Locator(f, xs[..n]), Linear(x));
    }
  }

  /** The locator depends only on which locators are listed, not on their order. */
  lemma LocatorUnique(f: Field, xs: seq<nat>, ys: seq<nat>)
    requires Locators(f, xs) && Locators(f, ys) && |xs| == |ys|
    requires forall i :: 0 <= i < |ys| ==> ys[i] in xs
    ensures Locator(f, xs) == Locator(f, ys)
  {
    hide Xor, Mul, Times, Eval, Locator;
    TableRange(f);
    LocatorShape(f, xs);
    LocatorShape(f, ys);
    forall i | 0 <= i < |ys| ensures Eval(f, Locator(f, xs), Inverse(f, ys[i])) == 0 {
      LocatorRoot(f, xs, ys[i]);
    }
    var u := LocatorDivides(f, Locator(f, xs), ys);
    ConstantFactor(f, u, Locator(f, ys), Locator(f, xs));
    ConstantOfTimes(f, u, Locator(f, ys));
    MulOne(f, u[0]);
    TimesOne(f, Locator(f, ys));
    assert u == ONE;
  }

  lemma ConstantFactor(f: Field, u: Poly, q: Poly, p: Poly)
    requires Canonical(u) && Over(f, u) && Canonical(q) && Over(f, q)
    requires p == Times(f, u, q) && !IsZero(p) && |p| <= |q|
    ensures |u| == 1 && u[0] != 0 && !IsZero(q)
  {
    hide Times;
    TimesZero(f, u);
    TimesZero(f, q);
    assert IsZero(u) ==> u == ZERO;
    assert IsZero(q) ==> q == ZERO;
    TimesLength(f, u, q);
  }
}
