// The ring of polynomials over a Galois field, as the specification of GenericGFPoly.
// A polynomial is its list of coefficients, highest power first; the canonical form has a nonzero
// leading coefficient, except that zero is [0].
module PolyAlgebra {
  import opened BitOps
  import opened GenericGF

  type Poly = seq<nat>

  const ZERO: Poly := [0]
  const ONE: Poly := [1]

  /** The coefficient of x^k. */
  function Coef(p: Poly, k: nat): nat {
    if k < |p| then p[|p| - 1 - k] else 0
  }

  predicate Canonical(p: Poly) {
    |p| > 0 && (p[0] != 0 || |p| == 1)
  }

  /** All coefficients are field elements. */
  predicate Over(f: GF, p: Poly) {
    forall i :: 0 <= i < |p| ==> p[i] < f.size
  }

  lemma OverAt(f: GF, p: Poly, i: nat)
    requires Over(f, p) && i < |p|
    ensures p[i] < f.size
  {
  }

  predicate IsZero(p: Poly) {
    |p| > 0 && p[0] == 0
  }

  function Zeros(n: nat): (z: Poly)
    ensures |z| == n && forall i :: 0 <= i < n ==> z[i] == 0
  {
    seq(n, _ => 0)
  }

  function Normalize(p: Poly): (r: Poly)
    ensures Canonical(r)
    ensures Canonical(p) ==> r == p
    ensures |p| > 0 ==> |r| <= |p|
  {
    if |p| == 0 then [0] else if p[0] != 0 || |p| == 1 then p else Normalize(p[1..])
  }

  lemma {:induction false} CoefNormalize(p: Poly, k: nat)
    ensures Coef(Normalize(p), k) == Coef(p, k)
  {
    if |p| > 1 && p[0] == 0 {
      CoefNormalize(p[1..], k);
    }
  }

  lemma {:induction false} OverNormalize(f: Field, p: Poly)
    requires Over(f, p)
    ensures Over(f, Normalize(p))
  {
    TableRange(f);
    if |p| > 1 && p[0] == 0 {
      OverNormalize(f, p[1..]);
    }
  }

  function Longer(p: Poly, q: Poly): nat {
    if |p| >= |q| then |p| else |q|
  }

  /** Canonical polynomials with the same coefficients are the same list. */
  lemma Extensional(p: Poly, q: Poly)
    requires Canonical(p) && Canonical(q)
    requires forall k: nat :: Coef(p, k) == Coef(q, k)
    ensures p == q
  {
    var top := Longer(p, q) - 1;
    assert Coef(p, top) == Coef(q, top);
    forall i | 0 <= i < |p| ensures p[i] == q[i] {
      assert Coef(p, |p| - 1 - i) == Coef(q, |p| - 1 - i);
    }
  }

  /** Coefficientwise sum of lists aligned at their constant terms. */
  function RawSum(p: Poly, q: Poly): (r: Poly)
    ensures |r| == Longer(p, q)
  {
    var n := Longer(p, q);
    seq(n, i requires 0 <= i < n => Xor(Coef(p, n - 1 - i), Coef(q, n - 1 - i)))
  }

  function Plus(p: Poly, q: Poly): (r: Poly)
    ensures Canonical(r)
  {
    Normalize(RawSum(p, q))
  }

  lemma CoefRawSum(p: Poly, q: Poly, k: nat)
    ensures Coef(RawSum(p, q), k) == Xor(Coef(p, k), Coef(q, k))
  {
    hide Xor;
    XorZero(0);
  }

  lemma CoefPlus(p: Poly, q: Poly, k: nat)
    ensures Coef(Plus(p, q), k) == Xor(Coef(p, k), Coef(q, k))
  {
    hide Xor;
    CoefNormalize(RawSum(p, q), k);
    CoefRawSum(p, q, k);
  }

  lemma OverPlus(f: Field, p: Poly, q: Poly)
    requires Over(f, p) && Over(f, q)
    ensures Over(f, Plus(p, q))
  {
    hide Xor;
    TableRange(f);
    forall i | 0 <= i < |RawSum(p, q)| ensures RawSum(p, q)[i] < f.size {
      XorInRange(f, Coef(p, |RawSum(p, q)| - 1 - i), Coef(q, |RawSum(p, q)| - 1 - i));
    }
    OverNormalize(f, RawSum(p, q));
  }

  lemma PlusComm(p: Poly, q: Poly)
    ensures Plus(p, q) == Plus(q, p)
  {
    hide Xor, Plus;
    forall k: nat ensures Coef(Plus(p, q), k) == Coef(Plus(q, p), k) {
      CoefPlus(p, q, k);
      CoefPlus(q, p, k);
      XorComm(Coef(p, k), Coef(q, k));
    }
    Extensional(Plus(p, q), Plus(q, p));
  }

  lemma PlusAssoc(p: Poly, q: Poly, s: Poly)
    ensures Plus(Plus(p, q), s) == Plus(p, Plus(q, s))
  {
    hide Xor, Plus;
    forall k: nat ensures Coef(Plus(Plus(p, q), s), k) == Coef(Plus(p, Plus(q, s)), k) {
      CoefPlus(Plus(p, q), s, k);
      CoefPlus(p, Plus(q, s), k);
      CoefPlus(p, q, k);
      CoefPlus(q, s, k);
      XorAssoc(Coef(p, k), Coef(q, k), Coef(s, k));
    }
    Extensional(Plus(Plus(p, q), s), Plus(p, Plus(q, s)));
  }

  lemma PlusZero(p: Poly)
    requires Canonical(p)
    ensures Plus(p, ZERO) == p
    ensures Plus(ZERO, p) == p
  {
    hide Xor, Plus;
    forall k: nat ensures Coef(Plus(p, ZERO), k) == Coef(p, k) {
      CoefPlus(p, ZERO, k);
      XorZero(Coef(p, k));
    }
    Extensional(Plus(p, ZERO), p);
    PlusComm(p, ZERO);
  }

  /** Characteristic two: a sum vanishes exactly when its terms agree. */
  lemma PlusSelf(p: Poly, q: Poly)
    requires Canonical(p) && Canonical(q)
    ensures Plus(p, p) == ZERO
    ensures Plus(p, q) == ZERO <==> p == q
    ensures Plus(Plus(p, q), q) == p
  {
    hide Xor, Plus;
    forall r: Poly | r == p || r == q ensures Plus(r, r) == ZERO {
      forall k: nat ensures Coef(Plus(r, r), k) == Coef(ZERO, k) {
        CoefPlus(r, r, k);
        XorSelf(Coef(r, k));
      }
      Extensional(Plus(r, r), ZERO);
    }
    PlusAssoc(p, q, q);
    PlusZero(p);
    PlusZero(q);
  }

  lemma PlusLength(p: Poly, q: Poly)
    requires Canonical(p) && Canonical(q)
    ensures |Plus(p, q)| <= Longer(p, q)
    ensures |p| > |q| ==> |Plus(p, q)| == |p|
    ensures |p| < |q| ==> |Plus(p, q)| == |q|
  {
    hide Xor;
    var r := RawSum(p, q);
    if |p| > |q| {
      XorZero(p[0]);
      assert r[0] == Xor(Coef(p, |p| - 1), Coef(q, |p| - 1));
    } else if |p| < |q| {
      XorZero(q[0]);
      assert r[0] == Xor(Coef(p, |q| - 1), Coef(q, |q| - 1));
    }
  }

  // ----- products

  /** The coefficient of x^k in the product, by peeling constant terms off p. */
  function Conv(f: Field, p: Poly, q: Poly, k: nat): nat
    decreases |p|
  {
    if |p| == 0 then 0
    else
      Xor(if k == 0 then 0 else Conv(f, p[..|p| - 1], q, k - 1), Mul(f, p[|p| - 1], Coef(q, k)))
  }

  function RawProduct(f: Field, p: Poly, q: Poly): (r: Poly)
    requires |p| > 0 && |q| > 0
    ensures |r| == |p| + |q| - 1
  {
    var n := |p| + |q| - 1;
    seq(n, i requires 0 <= i < n => Conv(f, p, q, n - 1 - i))
  }

  function Times(f: Field, p: Poly, q: Poly): (r: Poly)
    ensures Canonical(r)
  {
    if |p| == 0 || |q| == 0 then ZERO else Normalize(RawProduct(f, p, q))
  }

  lemma {:induction false} ConvBeyond(f: Field, p: Poly, q: Poly, k: nat)
    requires k + 1 >= |p| + |q|
    ensures Conv(f, p, q, k) == 0
    decreases |p|
  {
    hide Xor, Mul;
    if |p| > 0 {
      MulZero(f, p[|p| - 1]);
      XorZero(0);
      if k > 0 {
        ConvBeyond(f, p[..|p| - 1], q, k - 1);
      }
    }
  }

  lemma {:induction false} ConvTop(f: Field, p: Poly, q: Poly)
    requires |p| > 0 && |q| > 0
    ensures Conv(f, p, q, |p| + |q| - 2) == Mul(f, p[0], q[0])
    decreases |p|
  {
    hide Xor, Mul;
    var k: nat := |p| + |q| - 2;
    if |p| == 1 {
      assert k == 0 || Conv(f, p[..0], q, k - 1) == 0;
      XorZero(Mul(f, p[0], q[0]));
    } else {
      ConvTop(f, p[..|p| - 1], q);
      MulZero(f, p[|p| - 1]);
      XorZero(Mul(f, p[0], q[0]));
    }
  }

  lemma CoefRawProduct(f: Field, p: Poly, q: Poly, k: nat)
    requires |p| > 0 && |q| > 0
    ensures Coef(RawProduct(f, p, q), k) == Conv(f, p, q, k)
  {
    hide Xor, Mul, Conv;
    if k + 1 >= |p| + |q| {
      ConvBeyond(f, p, q, k);
    }
  }

  lemma CoefTimes(f: Field, p: Poly, q: Poly, k: nat)
    ensures Coef(Times(f, p, q), k) == Conv(f, p, q, k)
  {
    hide Xor, Mul, Conv;
    if |p| == 0 || |q| == 0 {
      ConvEmpty(f, p, q, k);
    } else {
      CoefRawProduct(f, p, q, k);
      CoefNormalize(RawProduct(f, p, q), k);
    }
  }

  lemma {:induction false} ConvEmpty(f: Field, p: Poly, q: Poly, k: nat)
    requires |p| == 0 || |q| == 0
    ensures Conv(f, p, q, k) == 0
    decreases |p|
  {
    hide Xor, Mul;
    if |p| > 0 {
      MulZero(f, p[|p| - 1]);
      XorZero(0);
      if k > 0 {
        ConvEmpty(f, p[..|p| - 1], q, k - 1);
      }
    }
  }

  lemma {:induction false} ConvRange(f: Field, p: Poly, q: Poly, k: nat)
    ensures f.size >= 2 && Conv(f, p, q, k) < f.size
    decreases |p|
  {
    hide Xor, Mul;
    TableRange(f);
    if |p| > 0 {
      if k > 0 {
        ConvRange(f, p[..|p| - 1], q, k - 1);
      }
      XorInRange(f, if k == 0 then 0 else Conv(f, p[..|p| - 1], q, k - 1), Mul(f, p[|p| - 1], Coef(q, k)));
    }
  }

  lemma OverTimes(f: Field, p: Poly, q: Poly)
    ensures Over(f, Times(f, p, q))
  {
    hide Xor, Mul, Conv;
    TableRange(f);
    if |p| > 0 && |q| > 0 {
      var n := |p| + |q| - 1;
      forall i | 0 <= i < n ensures RawProduct(f, p, q)[i] < f.size {
        ConvRange(f, p, q, n - 1 - i);
      }
      OverNormalize(f, RawProduct(f, p, q));
    }
  }

  /** The product depends on q only through coefficients up to the one asked for. */
  lemma {:induction false} ConvSameRight(f: Field, p: Poly, q: Poly, q': Poly, k: nat)
    requires forall j: nat :: j <= k ==> Coef(q, j) == Coef(q', j)
    ensures Conv(f, p, q, k) == Conv(f, p, q', k)
    decreases |p|
  {
    hide Xor, Mul;
    if |p| > 0 && k > 0 {
      ConvSameRight(f, p[..|p| - 1], q, q', k - 1);
    }
  }

  lemma {:induction false} ConvPlusRight(f: Field, p: Poly, q: Poly, s: Poly, r: Poly, k: nat)
    requires forall j: nat :: Coef(r, j) == Xor(Coef(q, j), Coef(s, j))
    ensures Conv(f, p, r, k) == Xor(Conv(f, p, q, k), Conv(f, p, s, k))
    decreases |p|
  {
    hide Xor, Mul;
    XorZero(0);
    if |p| > 0 {
      var p', c := p[..|p| - 1], p[|p| - 1];
      if k > 0 {
        ConvPlusRight(f, p', q, s, r, k - 1);
      }
      MulXor(f, c, Coef(q, k), Coef(s, k));
      XorExchange(if k == 0 then 0 else Conv(f, p', q, k - 1), if k == 0 then 0 else Conv(f, p', s, k - 1),
                  Mul(f, c, Coef(q, k)), Mul(f, c, Coef(s, k)));
    }
  }

  /** Peeling the constant term off the right factor instead. */
  lemma {:induction false} ConvPeelRight(f: Field, p: Poly, q: Poly, k: nat)
    requires |q| > 0
    ensures Conv(f, p, q, k) ==
            Xor(if k == 0 then 0 else Conv(f, p, q[..|q| - 1], k - 1), Mul(f, Coef(p, k), q[|q| - 1]))
    decreases |p|
  {
    hide Xor, Mul;
    var q', d := q[..|q| - 1], q[|q| - 1];
    if |p| == 0 {
      MulZero(f, d);
      XorZero(0);
    } else {
      var p', c := p[..|p| - 1], p[|p| - 1];
      if k == 0 {
      } else {
        ConvPeelRight(f, p', q, k - 1);
        var a := if k == 1 then 0 else Conv(f, p', q', k - 2);
        assert Coef(p, k) == Coef(p', k - 1);
        assert Coef(q, k) == Coef(q', k - 1);
        assert Conv(f, p, q', k - 1) == Xor(a, Mul(f, c, Coef(q', k - 1)));
        var u, v := Mul(f, Coef(p', k - 1), d), Mul(f, c, Coef(q', k - 1));
        XorAssoc(a, u, v);
        XorAssoc(a, v, u);
        XorComm(u, v);
      }
    }
  }

  lemma {:induction false} ConvComm(f: Field, p: Poly, q: Poly, k: nat)
    ensures Conv(f, p, q, k) == Conv(f, q, p, k)
    decreases |q|
  {
    hide Xor, Mul;
    if |q| == 0 {
      ConvEmpty(f, p, q, k);
    } else {
      ConvPeelRight(f, p, q, k);
      if k > 0 {
        ConvComm(f, p, q[..|q| - 1], k - 1);
      }
      MulComm(f, Coef(p, k), q[|q| - 1]);
    }
  }

  lemma ConvPlusLeft(f: Field, p: Poly, q: Poly, r: Poly, s: Poly, k: nat)
    requires forall j: nat :: Coef(r, j) == Xor(Coef(p, j), Coef(q, j))
    ensures Conv(f, r, s, k) == Xor(Conv(f, p, s, k), Conv(f, q, s, k))
  {
    hide Xor, Conv;
    ConvPlusRight(f, s, p, q, r, k);
    ConvComm(f, s, p, k);
    ConvComm(f, s, q, k);
    ConvComm(f, s, r, k);
  }

  lemma {:induction false} ConvScale(f: Field, c: nat, p: Poly, r: Poly, q: Poly, k: nat)
    requires |r| == |p| && forall j: nat :: Coef(r, j) == Mul(f, c, Coef(p, j))
    ensures Conv(f, r, q, k) == Mul(f, c, Conv(f, p, q, k))
    decreases |p|
  {
    hide Xor, Mul;
    MulZero(f, c);
    if |p| > 0 {
      var p', r' := p[..|p| - 1], r[..|p| - 1];
      forall j: nat ensures Coef(r', j) == Mul(f, c, Coef(p', j)) {
        assert Coef(r', j) == Coef(r, j + 1);
        assert Coef(p', j) == Coef(p, j + 1);
      }
      assert Coef(r, 0) == Mul(f, c, Coef(p, 0));
      var a := if k == 0 then 0 else Conv(f, p', q, k - 1);
      if k > 0 {
        ConvScale(f, c, p', r', q, k - 1);
      }
      MulXor(f, c, a, Mul(f, p[|p| - 1], Coef(q, k)));
      MulAssoc(f, c, p[|p| - 1], Coef(q, k));
    }
  }

  function Scaled(f: Field, c: nat, p: Poly): (r: Poly)
    ensures |r| == |p|
    ensures forall i :: 0 <= i < |p| ==> r[i] == Mul(f, c, p[i])
  {
    seq(|p|, i requires 0 <= i < |p| => Mul(f, c, p[i]))
  }

  lemma CoefScaled(f: Field, c: nat, p: Poly, k: nat)
    ensures Coef(Scaled(f, c, p), k) == Mul(f, c, Coef(p, k))
  {
    hide Mul;
    MulZero(f, c);
  }

  /** (p * q) * s and p * (q * s) agree at every coefficient. */
  lemma {:induction false} ConvAssoc(f: Field, p: Poly, q: Poly, s: Poly, k: nat)
    requires |q| > 0 && |s| > 0
    ensures Conv(f, Times(f, p, q), s, k) == Conv(f, p, Times(f, q, s), k)
    decreases |p|
  {
    hide Xor, Mul, Conv, Times;
    ConvComm(f, Times(f, p, q), s, k);
    if |p| == 0 {
      ConvEmpty(f, p, Times(f, q, s), k);
      forall j: nat ensures Coef(Times(f, p, q), j) == Coef([], j) {
        CoefTimes(f, p, q, j);
        ConvEmpty(f, p, q, j);
      }
      ConvSameRight(f, s, Times(f, p, q), [], k);
      ConvEmpty(f, s, [], k);
    } else {
      var p', c := p[..|p| - 1], p[|p| - 1];
      var low := Scaled(f, c, q);
      var high := Times(f, p', q) + [0];
      forall j: nat ensures Coef(Times(f, p, q), j) == Xor(Coef(high, j), Coef(low, j)) {
        CoefTimes(f, p, q, j);
        ConvUnfold(f, p, q, j);
        CoefScaled(f, c, q, j);
        if j > 0 {
          CoefTimes(f, p', q, j - 1);
          assert Coef(high, j) == Coef(Times(f, p', q), j - 1);
        }
      }
      ConvPlusRight(f, s, high, low, Times(f, p, q), k);
      ConvComm(f, s, high, k);
      ConvComm(f, s, low, k);
      ConvUnfold(f, high, s, k);
      assert high[..|high| - 1] == Times(f, p', q);
      MulZero(f, Coef(s, k));
      if k > 0 {
        ConvAssoc(f, p', q, s, k - 1);
      }
      XorZero(if k == 0 then 0 else Conv(f, Times(f, p', q), s, k - 1));
      assert forall j: nat :: Coef(low, j) == Mul(f, c, Coef(q, j)) by {
        forall j: nat ensures Coef(low, j) == Mul(f, c, Coef(q, j)) {
          CoefScaled(f, c, q, j);
        }
      }
      ConvScale(f, c, q, low, s, k);
      CoefTimes(f, q, s, k);
      ConvUnfold(f, p, Times(f, q, s), k);
    }
  }

  lemma ConvUnfold(f: Field, p: Poly, q: Poly, k: nat)
    requires |p| > 0
    ensures Conv(f, p, q, k) ==
            Xor(if k == 0 then 0 else Conv(f, p[..|p| - 1], q, k - 1), Mul(f, p[|p| - 1], Coef(q, k)))
  {
    hide Xor, Mul;
  }

  lemma TimesComm(f: Field, p: Poly, q: Poly)
    ensures Times(f, p, q) == Times(f, q, p)
  {
    hide Conv, Times;
    forall k: nat ensures Coef(Times(f, p, q), k) == Coef(Times(f, q, p), k) {
      CoefTimes(f, p, q, k);
      CoefTimes(f, q, p, k);
      ConvComm(f, p, q, k);
    }
    Extensional(Times(f, p, q), Times(f, q, p));
  }

  lemma TimesAssoc(f: Field, p: Poly, q: Poly, s: Poly)
    requires |q| > 0 && |s| > 0
    ensures Times(f, Times(f, p, q), s) == Times(f, p, Times(f, q, s))
  {
    hide Conv, Times;
    forall k: nat ensures Coef(Times(f, Times(f, p, q), s), k) == Coef(Times(f, p, Times(f, q, s)), k) {
      CoefTimes(f, Times(f, p, q), s, k);
      CoefTimes(f, p, Times(f, q, s), k);
      ConvAssoc(f, p, q, s, k);
    }
    Extensional(Times(f, Times(f, p, q), s), Times(f, p, Times(f, q, s)));
  }

  lemma TimesPlus(f: Field, p: Poly, q: Poly, s: Poly)
    ensures Times(f, p, Plus(q, s)) == Plus(Times(f, p, q), Times(f, p, s))
    ensures Times(f, Plus(q, s), p) == Plus(Times(f, q, p), Times(f, s, p))
  {
    hide Xor, Conv, Times, Plus;
    forall k: nat ensures Coef(Times(f, p, Plus(q, s)), k) == Coef(Plus(Times(f, p, q), Times(f, p, s)), k) {
      CoefTimes(f, p, Plus(q, s), k);
      CoefPlus(Times(f, p, q), Times(f, p, s), k);
      CoefTimes(f, p, q, k);
      CoefTimes(f, p, s, k);
      forall j: nat ensures Coef(Plus(q, s), j) == Xor(Coef(q, j), Coef(s, j)) {
        CoefPlus(q, s, j);
      }
      ConvPlusRight(f, p, q, s, Plus(q, s), k);
    }
    Extensional(Times(f, p, Plus(q, s)), Plus(Times(f, p, q), Times(f, p, s)));
    TimesComm(f, p, Plus(q, s));
    TimesComm(f, p, q);
    TimesComm(f, p, s);
  }

  lemma TimesZero(f: Field, p: Poly)
    ensures Times(f, p, ZERO) == ZERO
    ensures Times(f, ZERO, p) == ZERO
  {
    hide Xor, Conv, Times, Mul;
    forall k: nat ensures Coef(Times(f, ZERO, p), k) == Coef(ZERO, k) {
      CoefTimes(f, ZERO, p, k);
      ConvUnfold(f, ZERO, p, k);
      ConvEmpty(f, [], p, if k == 0 then 0 else k - 1);
      assert ZERO[..0] == [];
      MulZero(f, Coef(p, k));
      XorZero(0);
    }
    Extensional(Times(f, ZERO, p), ZERO);
    TimesComm(f, p, ZERO);
  }

  lemma TimesOne(f: Field, p: Poly)
    requires Canonical(p) && Over(f, p)
    ensures Times(f, ONE, p) == p
    ensures Times(f, p, ONE) == p
  {
    hide Xor, Conv, Times, Mul;
    TableRange(f);
    forall k: nat ensures Coef(Times(f, ONE, p), k) == Coef(p, k) {
      CoefTimes(f, ONE, p, k);
      ConvUnfold(f, ONE, p, k);
      ConvEmpty(f, [], p, if k == 0 then 0 else k - 1);
      assert ONE[..0] == [];
      MulOne(f, Coef(p, k));
      XorZero(Coef(p, k));
    }
    Extensional(Times(f, ONE, p), p);
    TimesComm(f, p, ONE);
  }

  /** Degrees add: there are no zero divisors. */
  lemma TimesLength(f: Field, p: Poly, q: Poly)
    requires Canonical(p) && Canonical(q) && Over(f, p) && Over(f, q)
    requires !IsZero(p) && !IsZero(q)
    ensures |Times(f, p, q)| == |p| + |q| - 1
    ensures !IsZero(Times(f, p, q))
    ensures Times(f, p, q)[0] == Mul(f, p[0], q[0])
  {
    hide Xor, Mul, Conv;
    ConvTop(f, p, q);
    MulNonzero(f, p[0], q[0]);
  }
}
