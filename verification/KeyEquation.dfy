// The key equation of Reed-Solomon decoding and why the Euclidean algorithm solves it.
module KeyEquation {
  import opened BitOps
  import opened GenericGF
  import opened PolyAlgebra
  import opened PolyRoots

  /** Congruence modulo x^n. */
  ghost predicate ModEq(p: Poly, q: Poly, n: nat) {
    forall k: nat :: k < n ==> Coef(p, k) == Coef(q, k)
  }

  lemma ModTimes(f: Field, p: Poly, q: Poly, q': Poly, n: nat)
    requires ModEq(q, q', n)
    ensures ModEq(Times(f, p, q), Times(f, p, q'), n)
  {
    hide Conv, Times, Coef;
    forall k: nat | k < n ensures Coef(Times(f, p, q), k) == Coef(Times(f, p, q'), k) {
      CoefTimes(f, p, q, k);
      CoefTimes(f, p, q', k);
      ConvSameRight(f, p, q, q', k);
    }
  }

  lemma ModPlus(p: Poly, p': Poly, q: Poly, q': Poly, n: nat)
    requires ModEq(p, p', n) && ModEq(q, q', n)
    ensures ModEq(Plus(p, q), Plus(p', q'), n)
  {
    hide Plus, Xor, Coef;
    forall k: nat | k < n ensures Coef(Plus(p, q), k) == Coef(Plus(p', q'), k) {
      CoefPlus(p, q, k);
      CoefPlus(p', q', k);
    }
  }

  /** Congruent polynomials of degree below n are equal. */
  lemma ModExact(p: Poly, q: Poly, n: nat)
    requires Canonical(p) && Canonical(q) && ModEq(p, q, n) && |p| <= n && |q| <= n
    ensures p == q
  {
    forall k: nat ensures Coef(p, k) == Coef(q, k) {
    }
    Extensional(p, q);
  }

  // ----- syndromes of an error pattern

  ghost function Pow(f: Field, a: nat, i: nat): nat {
    if i == 0 then 1 else Mul(f, a, Pow(f, a, i - 1))
  }

  /** The sum over j of zs[j] * xs[j]^i. */
  ghost function PowerSum(f: Field, xs: seq<nat>, zs: seq<nat>, i: nat): nat
    requires |xs| == |zs|
  {
    if |xs| == 0 then 0
    else
      var n := |xs| - 1;
      Xor(PowerSum(f, xs[..n], zs[..n], i), Mul(f, zs[n], Pow(f, xs[n], i)))
  }

  /** The error evaluator: the sum over j of zs[j] times the locator of the other errors. */
  ghost function Evaluator(f: Field, xs: seq<nat>, zs: seq<nat>): Poly
    requires |xs| == |zs|
  {
    if |xs| == 0 then ZERO
    else
      var n := |xs| - 1;
      Plus(Times(f, Evaluator(f, xs[..n], zs[..n]), Linear(xs[n])), Times(f, Locator(f, xs[..n]), [zs[n]]))
  }

  ghost predicate Elements(f: GF, zs: seq<nat>) {
    forall i :: 0 <= i < |zs| ==> zs[i] < f.size
  }

  ghost predicate HasCoefs(s: Poly, n: nat, c: nat -> nat) {
    forall k: nat :: k < n ==> Coef(s, k) == c(k)
  }

  ghost function FromCoefs(n: nat, c: nat -> nat): (s: Poly)
    ensures |s| == n
    ensures HasCoefs(s, n, c)
  {
    seq(n, i requires 0 <= i < n => c(n - 1 - i))
  }

  /** Multiplying by x*y + 1 subtracts from each coefficient x times the one below it. */
  lemma CoefTimesLinear(f: Field, x: nat, s: Poly, k: nat)
    requires Coef(s, k) < f.size
    ensures Coef(Times(f, Linear(x), s), k) == Xor(if k == 0 then 0 else Mul(f, x, Coef(s, k - 1)), Coef(s, k))
  {
    hide Times, Xor, Mul, Coef, IsField;
    CoefTimes(f, Linear(x), s, k);
    ConvUnfold(f, [x, 1], s, k);
    assert [x, 1][..1] == [x];
    MulOne(f, Coef(s, k));
    if k > 0 {
      ConvUnfold(f, [x], s, k - 1);
      assert [x][..0] == [];
      XorZero(Mul(f, x, Coef(s, k - 1)));
    }
  }

  lemma GeometricTerm(f: Field, x: nat, z: nat, k: nat)
    requires k > 0
    ensures Xor(Mul(f, x, Mul(f, z, Pow(f, x, k - 1))), Mul(f, z, Pow(f, x, k))) == 0
  {
    hide Xor, Mul;
    var p := Pow(f, x, k - 1);
    MulAssoc(f, x, z, p);
    MulAssoc(f, z, x, p);
    MulComm(f, x, z);
    XorSelf(Mul(f, z, Pow(f, x, k)));
  }

  lemma GeometricSeries(f: Field, x: nat, z: nat, s: Poly, n: nat)
    requires z < f.size && forall k: nat :: k < n ==> Coef(s, k) == Mul(f, z, Pow(f, x, k))
    ensures ModEq(Times(f, Linear(x), s), [z], n)
  {
    hide Times, Xor, Mul, IsField;
    forall k: nat | k < n ensures Coef(Times(f, Linear(x), s), k) == Coef([z], k) {
      CoefTimesLinear(f, x, s, k);
      if k == 0 {
        MulOne(f, z);
        XorZero(z);
      } else {
        GeometricTerm(f, x, z, k);
      }
    }
  }

  lemma TimesSwap(f: Field, p: Poly, q: Poly, s: Poly)
    requires |p| > 0 && |q| > 0 && |s| > 0
    ensures Times(f, Times(f, p, q), s) == Times(f, q, Times(f, p, s))
    ensures Times(f, Times(f, p, q), s) == Times(f, p, Times(f, q, s))
  {
    hide Times;
    TimesComm(f, p, q);
    TimesAssoc(f, q, p, s);
    TimesAssoc(f, p, q, s);
  }

  lemma LocatorTimesSyndromesStep(f: Field, l: Poly, e: Poly, x: nat, z: nat, s1: Poly, s0: Poly, s: Poly, n: nat)
    requires |l| > 0 && |s1| > 0 && |s0| > 0
    requires ModEq(s, Plus(s1, s0), n)
    requires ModEq(Times(f, l, s1), e, n)
    requires ModEq(Times(f, Linear(x), s0), [z], n)
    ensures ModEq(Times(f, Times(f, l, Linear(x)), s), Plus(Times(f, e, Linear(x)), Times(f, l, [z])), n)
  {
    hide Times, Plus, IsField, Coef;
    var l' := Times(f, l, Linear(x));
    ModTimes(f, l', s, Plus(s1, s0), n);
    TimesPlus(f, l', s1, s0);
    TimesSwap(f, l, Linear(x), s1);
    TimesSwap(f, l, Linear(x), s0);
    ModTimes(f, Linear(x), Times(f, l, s1), e, n);
    TimesComm(f, Linear(x), e);
    ModTimes(f, l, Times(f, Linear(x), s0), [z], n);
    ModPlus(Times(f, l', s1), Times(f, e, Linear(x)), Times(f, l', s0), Times(f, l, [z]), n);
  }

  /** Locator times syndromes is the evaluator, modulo x^n. */
  lemma {:induction false} LocatorTimesSyndromes(f: Field, xs: seq<nat>, zs: seq<nat>, s: Poly, n: nat)
    requires Locators(f, xs) && Elements(f, zs) && |xs| == |zs| && n > 0 && |s| > 0
    requires forall k: nat :: k < n ==> Coef(s, k) == PowerSum(f, xs, zs, k)
    ensures ModEq(Times(f, Locator(f, xs), s), Evaluator(f, xs, zs), n)
    decreases |xs|
  {
    hide Times, Plus, Xor, Mul, IsField, Coef, Linear, Pow;
    if |xs| == 0 {
      assert ModEq(s, ZERO, n) by {
        forall k: nat | k < n ensures Coef(ZERO, k) == 0 {
          CoefZero(k);
        }
      }
      ModTimes(f, ONE, s, ZERO, n);
      TimesZero(f, ONE);
    } else {
      var m := |xs| - 1;
      var xs', zs', x, z := xs[..m], zs[..m], xs[m], zs[m];
      var s1 := FromCoefs(n, k => PowerSum(f, xs', zs', k));
      var s0 := FromCoefs(n, k => Mul(f, z, Pow(f, x, k)));
      LocatorShape(f, xs');
      LocatorTimesSyndromes(f, xs', zs', s1, n);
      GeometricSeries(f, x, z, s0, n);
      forall k: nat | k < n ensures Coef(s, k) == Coef(Plus(s1, s0), k) {
        CoefPlus(s1, s0, k);
      }
      LocatorTimesSyndromesStep(f, Locator(f, xs'), Evaluator(f, xs', zs'), x, z, s1, s0, s, n);
    }
  }

  lemma CoefZero(k: nat)
    ensures Coef(ZERO, k) == 0
  {
  }

  // ----- the evaluator

  lemma {:induction false} EvaluatorShape(f: Field, xs: seq<nat>, zs: seq<nat>)
    requires Locators(f, xs) && Elements(f, zs) && |xs| == |zs|
    ensures Canonical(Evaluator(f, xs, zs)) && Over(f, Evaluator(f, xs, zs))
    ensures |Evaluator(f, xs, zs)| <= if |xs| == 0 then 1 else |xs|
    decreases |xs|
  {
    hide Times, Plus;
    TableRange(f);
    if |xs| > 0 {
      var m := |xs| - 1;
      var e, l := Evaluator(f, xs[..m], zs[..m]), Locator(f, xs[..m]);
      EvaluatorShape(f, xs[..m], zs[..m]);
      LocatorShape(f, xs[..m]);
      TimesUpper(f, e, Linear(xs[m]));
      TimesUpper(f, l, [zs[m]]);
      OverTimes(f, e, Linear(xs[m]));
      OverTimes(f, l, [zs[m]]);
      OverPlus(f, Times(f, e, Linear(xs[m])), Times(f, l, [zs[m]]));
      PlusLength(Times(f, e, Linear(xs[m])), Times(f, l, [zs[m]]));
      if m == 0 {
        TimesZero(f, Linear(xs[m]));
      }
    }
  }

  ghost function Without<T>(s: seq<T>, k: nat): seq<T>
    requires k < |s|
  {
    s[..k] + s[k + 1..]
  }

  lemma WithoutLocators(f: Field, xs: seq<nat>, k: nat)
    requires Locators(f, xs) && k < |xs|
    ensures Locators(f, Without(xs, k))
    ensures xs[k] !in Without(xs, k)
    ensures forall x :: x in xs && x != xs[k] ==> x in Without(xs, k)
  {
    var w := Without(xs, k);
    assert forall i :: 0 <= i < k ==> w[i] == xs[i];
    assert forall i :: k <= i < |w| ==> w[i] == xs[i + 1];
    forall x | x in xs && x != xs[k] ensures x in w {
      var i :| 0 <= i < |xs| && xs[i] == x;
      assert i < k || w[i - 1] == x;
    }
  }

  lemma EvaluatorUnfold(f: Field, xs: seq<nat>, zs: seq<nat>, a: nat)
    requires 0 < |xs| == |zs|
    ensures var m := |xs| - 1;
      Eval(f, Evaluator(f, xs, zs), a) ==
      Xor(Mul(f, Eval(f, Evaluator(f, xs[..m], zs[..m]), a), Eval(f, Linear(xs[m]), a)),
          Mul(f, zs[m], Eval(f, Locator(f, xs[..m]), a)))
  {
    hide Times, Plus, Xor, Mul, Eval, Locator;
    var m := |xs| - 1;
    var e, l := Evaluator(f, xs[..m], zs[..m]), Locator(f, xs[..m]);
    EvalPlus(f, Times(f, e, Linear(xs[m])), Times(f, l, [zs[m]]), a);
    EvalTimes(f, e, Linear(xs[m]), a);
    EvalTimes(f, l, [zs[m]], a);
    EvalConstant(f, zs[m], a);
    MulComm(f, Eval(f, l, a), zs[m]);
  }

  lemma LocatorUnfold(f: Field, xs: seq<nat>, x: nat, a: nat)
    ensures Eval(f, Locator(f, xs + [x]), a) == Mul(f, Eval(f, Locator(f, xs), a), Eval(f, Linear(x), a))
  {
    hide Times, Eval, Mul;
    assert (xs + [x])[..|xs|] == xs;
    EvalTimes(f, Locator(f, xs), Linear(x), a);
  }

  /** At the root of one error only that error's summand survives. */
  lemma {:induction false} EvaluatorAtRoot(f: Field, xs: seq<nat>, zs: seq<nat>, k: nat)
    requires Locators(f, xs) && Elements(f, zs) && |xs| == |zs| && k < |xs|
    ensures Eval(f, Evaluator(f, xs, zs), Inverse(f, xs[k])) ==
            Mul(f, zs[k], Eval(f, Locator(f, Without(xs, k)), Inverse(f, xs[k])))
    decreases |xs|
  {
    hide Times, Plus, Xor, Mul, Eval, IsField, Linear, Inverse, Evaluator, Locator;
    var m := |xs| - 1;
    var xs', zs', x, z := xs[..m], zs[..m], xs[m], zs[m];
    var e, l := Evaluator(f, xs', zs'), Locator(f, xs');
    var a := Inverse(f, xs[k]);
    EvaluatorUnfold(f, xs, zs, a);
    LinearRoot(f, x, xs[k]);
    if k == m {
      assert Without(xs, k) == xs';
      MulZero(f, Eval(f, e, a));
      XorZero(Mul(f, z, Eval(f, l, a)));
    } else {
      LocatorRoot(f, xs', xs[k]);
      assert xs'[k] in xs';
      MulZero(f, z);
      XorZero(Mul(f, Eval(f, e, a), Eval(f, Linear(x), a)));
      assert Without(xs, k) == Without(xs', k) + [x];
      EvaluatorAtRoot(f, xs', zs', k);
      LocatorUnfold(f, Without(xs', k), x, a);
      MulAssoc(f, zs[k], Eval(f, Locator(f, Without(xs', k)), a), Eval(f, Linear(x), a));
    }
  }

  lemma EvalConstant(f: Field, c: nat, a: nat)
    ensures Eval(f, [c], a) == c
  {
    hide Xor, Mul;
    assert [c][..0] == [];
    MulZero(f, a);
    XorZero(c);
  }

  lemma EvaluatorNonzeroAtRoot(f: Field, xs: seq<nat>, zs: seq<nat>, k: nat)
    requires Locators(f, xs) && Elements(f, zs) && |xs| == |zs| && k < |xs| && zs[k] != 0
    ensures Eval(f, Evaluator(f, xs, zs), Inverse(f, xs[k])) != 0
  {
    hide Eval, Mul, Evaluator;
    EvaluatorAtRoot(f, xs, zs, k);
    WithoutLocators(f, xs, k);
    LocatorShape(f, Without(xs, k));
    LocatorRoot(f, Without(xs, k), xs[k]);
    EvalRange(f, Locator(f, Without(xs, k)), Inverse(f, xs[k]));
    MulNonzero(f, zs[k], Eval(f, Locator(f, Without(xs, k)), Inverse(f, xs[k])));
  }

  // ----- what the Euclidean loop maintains

  /** The Euclidean state (rLast, r, tLast, t) for syndrome polynomial s and n check symbols. */
  ghost predicate EuclidState(f: Field, s: Poly, n: nat, rLast: Poly, r: Poly, tLast: Poly, t: Poly) {
    && Canonical(rLast) && Canonical(r) && Canonical(tLast) && Canonical(t)
    && Over(f, rLast) && Over(f, r) && Over(f, tLast) && Over(f, t)
    && !IsZero(rLast) && !IsZero(t)
    && (IsZero(r) || |r| < |rLast|)
    && (|tLast| < |t| || (t == ONE && tLast == ZERO))
    && |t| + |rLast| == n + 2
    && ModEq(Times(f, t, s), r, n)
    && ModEq(Times(f, tLast, s), rLast, n)
    && Plus(Times(f, r, tLast), Times(f, rLast, t)) == Monomial(1, n)
  }

  lemma EuclidStart(f: Field, s: Poly, n: nat)
    requires Canonical(s) && Over(f, s) && |s| <= n
    ensures EuclidState(f, s, n, Monomial(1, n), s, ZERO, ONE)
  {
    hide Times, Plus;
    TableRange(f);
    TimesOne(f, s);
    TimesZero(f, s);
    TimesOne(f, Monomial(1, n));
    PlusZero(Monomial(1, n));
  }

  /** One division step keeps the invariant; the degree of r falls. */
  lemma EuclidStep(f: Field, s: Poly, n: nat, rLast: Poly, r: Poly, tLast: Poly, t: Poly, q: Poly, r': Poly, t': Poly)
    requires EuclidState(f, s, n, rLast, r, tLast, t) && !IsZero(r) && |s| > 0
    requires IsDivision(f, rLast, r, q, r') && t' == Plus(Times(f, q, t), tLast)
    ensures EuclidState(f, s, n, r, r', t, t')
  {
    hide Times, Plus, ModEq, Over, Monomial;
    var qr := Times(f, q, r);
    EuclidQuotient(f, rLast, r, q, r');
    TimesLength(f, q, t);
    PlusLength(Times(f, q, t), tLast);
    OverTimes(f, q, t);
    OverPlus(f, Times(f, q, t), tLast);
    EuclidCongruence(f, s, n, rLast, r, tLast, t, q, r', t');
    EuclidDeterminant(f, rLast, r, tLast, t, q, r', t');
  }

  lemma EuclidQuotient(f: Field, rLast: Poly, r: Poly, q: Poly, r': Poly)
    requires Canonical(r) && Over(f, r) && !IsZero(r) && |r| < |rLast| && IsDivision(f, rLast, r, q, r')
    ensures !IsZero(q) && |q| == |rLast| - |r| + 1
  {
    hide Times, Plus;
    TimesZero(f, r);
    PlusZero(r');
    assert q == ZERO ==> rLast == r';
    TimesLength(f, q, r);
    PlusLength(Times(f, q, r), r');
  }

  lemma EuclidCongruence(f: Field, s: Poly, n: nat, rLast: Poly, r: Poly, tLast: Poly, t: Poly,
                         q: Poly, r': Poly, t': Poly)
    requires ModEq(Times(f, t, s), r, n) && ModEq(Times(f, tLast, s), rLast, n)
    requires Canonical(r') && |q| > 0 && |t| > 0 && |s| > 0
    requires rLast == Plus(Times(f, q, r), r') && t' == Plus(Times(f, q, t), tLast)
    ensures ModEq(Times(f, t', s), r', n)
  {
    hide Times, Plus, ModEq;
    TimesPlus(f, s, Times(f, q, t), tLast);
    TimesAssoc(f, q, t, s);
    ModTimes(f, q, Times(f, t, s), r, n);
    ModPlus(Times(f, q, Times(f, t, s)), Times(f, q, r), Times(f, tLast, s), rLast, n);
    PlusComm(Times(f, q, r), r');
    PlusSelf(r', Times(f, q, r));
    PlusComm(Times(f, q, r), rLast);
  }

  lemma EuclidDeterminant(f: Field, rLast: Poly, r: Poly, tLast: Poly, t: Poly, q: Poly, r': Poly, t': Poly)
    requires Canonical(r') && |q| > 0 && |t| > 0 && |r| > 0
    requires rLast == Plus(Times(f, q, r), r') && t' == Plus(Times(f, q, t), tLast)
    ensures Plus(Times(f, r', t), Times(f, r, t')) == Plus(Times(f, r, tLast), Times(f, rLast, t))
  {
    hide Times, Plus;
    var m := Times(f, r, Times(f, q, t));
    TimesPlus(f, r, Times(f, q, t), tLast);
    TimesPlus(f, t, Times(f, q, r), r');
    TimesSwap(f, q, r, t);
    // both sides are r' t + r q t + r tLast
    var a, b := Times(f, r', t), Times(f, r, tLast);
    PlusComm(m, b);
    PlusComm(a, Plus(b, m));
    PlusAssoc(b, m, a);
  }

  // ----- the state at which the loop stops determines the errors

  lemma Commuted(f: Field, p: Poly, q: Poly, s: Poly)
    requires |p| > 0 && |q| > 0 && |s| > 0
    ensures Times(f, p, Times(f, q, s)) == Times(f, q, Times(f, p, s))
  {
    hide Times;
    TimesSwap(f, p, q, s);
  }

  /** Two solutions of the key equation whose cross products are short have equal cross products. */
  lemma CrossProduct(f: Field, s: Poly, n: nat, t: Poly, r: Poly, u: Poly, v: Poly)
    requires |s| > 0 && |t| > 0 && |u| > 0 && |r| > 0 && |v| > 0
    requires ModEq(Times(f, t, s), r, n) && ModEq(Times(f, u, s), v, n)
    requires |t| + |v| <= n + 1 && |u| + |r| <= n + 1
    ensures Times(f, u, r) == Times(f, t, v)
  {
    hide Times, Coef;
    ModTimes(f, u, Times(f, t, s), r, n);
    ModTimes(f, t, Times(f, u, s), v, n);
    Commuted(f, t, u, s);
    TimesUpper(f, u, r);
    TimesUpper(f, t, v);
    ModExact(Times(f, u, r), Times(f, t, v), n);
  }

  /** Any solution (u, v) with v shorter than rLast has u at least as long as t. */
  lemma EuclidMinimal(f: Field, s: Poly, n: nat, rLast: Poly, r: Poly, tLast: Poly, t: Poly, u: Poly, v: Poly)
    requires EuclidState(f, s, n, rLast, r, tLast, t) && |s| > 0
    requires Canonical(u) && Over(f, u) && !IsZero(u) && Canonical(v)
    requires ModEq(Times(f, u, s), v, n) && |v| < |rLast| && |r| < |rLast|
    ensures |u| >= |t|
  {
    hide Times, Plus, ModEq, Over, Monomial;
    if |u| < |t| {
      CrossProduct(f, s, n, t, r, u, v);
      CrossProduct(f, s, n, tLast, rLast, u, v);
      var x := Monomial(1, n);
      TimesPlus(f, u, Times(f, r, tLast), Times(f, rLast, t));
      TimesAssoc(f, u, r, tLast);
      TimesAssoc(f, u, rLast, t);
      TimesSwap(f, t, v, tLast);
      TimesSwap(f, tLast, v, t);
      TimesComm(f, t, tLast);
      var w := Times(f, v, Times(f, t, tLast));
      assert Times(f, u, x) == Plus(w, w);
      PlusSelf(w, w);
      MonomialNonzero(f, n);
      TimesLength(f, u, x);
      assert false;
    }
  }

  lemma MonomialNonzero(f: Field, n: nat)
    ensures Canonical(Monomial(1, n)) && Over(f, Monomial(1, n)) && !IsZero(Monomial(1, n))
    ensures |Monomial(1, n)| == n + 1
  {
    TableRange(f);
  }

  /** A polynomial that vanishes at no root of the locator. */
  ghost predicate NoCommonRoot(f: Field, xs: seq<nat>, e: Poly)
    requires Locators(f, xs)
  {
    forall i :: 0 <= i < |xs| ==> Eval(f, e, Inverse(f, xs[i])) != 0
  }

  /** When the loop stops, t and r are one common nonzero multiple of any locator and evaluator that fit. */
  lemma EuclidSolves(f: Field, s: Poly, n: nat, rLast: Poly, r: Poly, tLast: Poly, t: Poly, xs: seq<nat>, e: Poly)
    returns (c: nat)
    requires EuclidState(f, s, n, rLast, r, tLast, t) && |s| > 0
    requires |r| <= n / 2 < |rLast|
    requires Locators(f, xs) && |xs| <= n - n / 2
    requires Canonical(e) && Over(f, e) && |e| <= n / 2 && NoCommonRoot(f, xs, e)
    requires ModEq(Times(f, Locator(f, xs), s), e, n)
    ensures 0 < c < f.size
    ensures t == Times(f, [c], Locator(f, xs)) && r == Times(f, [c], e)
  {
    hide Times, Plus, ModEq, Over, Eval, Mul, Locator, Monomial;
    var l := Locator(f, xs);
    LocatorShape(f, xs);
    EuclidMinimal(f, s, n, rLast, r, tLast, t, l, e);
    CrossProduct(f, s, n, t, r, l, e);
    forall i | 0 <= i < |xs| ensures Eval(f, t, Inverse(f, xs[i])) == 0 {
      var a := Inverse(f, xs[i]);
      EvalTimes(f, l, r, a);
      EvalTimes(f, t, e, a);
      LocatorRoot(f, xs, xs[i]);
      MulZero(f, Eval(f, r, a));
      EvalRange(f, t, a);
      EvalRange(f, e, a);
      MulZeroIff(f, Eval(f, t, a), Eval(f, e, a));
    }
    var u := LocatorDivides(f, t, xs);
    ConstantFactor(f, u, l, t);
    c := u[0];
    assert u == [c];
    OverAt(f, u, 0);
    // l * r == u * l * e, so r == u * e
    TimesSwap(f, u, l, e);
    OverTimes(f, u, e);
    CancelLeft(f, l, r, Times(f, u, e));
  }

  /** Conversely, where the loop stops r vanishes at no root of t but zero. */
  lemma EuclidCoprime(f: Field, s: Poly, n: nat, rLast: Poly, r: Poly, tLast: Poly, t: Poly, a: nat)
    requires EuclidState(f, s, n, rLast, r, tLast, t) && 0 < a < f.size && Eval(f, t, a) == 0
    ensures Eval(f, r, a) != 0
  {
    hide Times, Plus, ModEq, Over, Eval, Mul, Monomial, Xor, IsField;
    EvalPlus(f, Times(f, r, tLast), Times(f, rLast, t), a);
    EvalTimes(f, r, tLast, a);
    EvalTimes(f, rLast, t, a);
    MulComm(f, Eval(f, rLast, a), 0);
    MulZero(f, Eval(f, rLast, a));
    MulZero(f, Eval(f, tLast, a));
    XorZero(0);
    EvalMonomial(f, n, a);
  }

  lemma {:induction false} EvalMonomial(f: Field, n: nat, a: nat)
    requires 0 < a < f.size
    ensures 0 < Eval(f, Monomial(1, n), a) < f.size
  {
    hide Mul, Xor, IsField;
    TableRange(f);
    var p := Monomial(1, n);
    if n == 0 {
      assert p == [1];
      EvalConstant(f, 1, a);
    } else {
      assert p[..|p| - 1] == Monomial(1, n - 1);
      EvalMonomial(f, n - 1, a);
      MulNonzero(f, a, Eval(f, Monomial(1, n - 1), a));
      XorZero(Mul(f, a, Eval(f, Monomial(1, n - 1), a)));
    }
  }

  lemma CancelLeft(f: Field, l: Poly, p: Poly, q: Poly)
    requires Canonical(l) && Over(f, l) && !IsZero(l)
    requires Canonical(p) && Over(f, p) && Canonical(q) && Over(f, q)
    requires Times(f, l, p) == Times(f, l, q)
    ensures p == q
  {
    hide Times, Plus;
    var d := Plus(p, q);
    TimesPlus(f, l, p, q);
    PlusSelf(Times(f, l, p), Times(f, l, q));
    OverPlus(f, p, q);
    PlusSelf(p, q);
    if d != ZERO {
      TimesLength(f, l, d);
    }
  }
}
