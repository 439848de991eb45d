// Galois fields of characteristic two built from log/antilog tables
// (zxing-core/src/GenericGF.h and GenericGF.cpp).
module GenericGF {
  import opened BitOps

  /** One doubling step of the table construction: multiply by alpha = 2, reduce, keep the low bits. */
  function Step(primitive: nat, size: nat, x: nat): (y: nat)
    requires size > 0
  {
    if 2 * x < size then 2 * x else Xor(2 * x, primitive) % size
  }

  /** Step applied n times. */
  function Steps(primitive: nat, size: nat, n: nat, x: nat): nat
    requires size > 0
  {
    if n == 0 then x else Step(primitive, size, Steps(primitive, size, n - 1, x))
  }

  /** alpha to the power n. */
  function Power(primitive: nat, size: nat, n: nat): nat
    requires size > 0
  {
    Steps(primitive, size, n, 1)
  }

  /** What the constructor's comment asks of its arguments: size is a power of two, the polynomial has
      degree log2(size) and a constant term, and the powers of alpha below size - 1 are distinct. */
  ghost predicate Primitive(primitive: nat, size: nat, m: nat) {
    && m > 0 && size == Pow2(m)
    && primitive % 2 == 1
    && DistinctPowers(primitive, size)
  }

  ghost predicate DistinctPowers(primitive: nat, size: nat)
    requires size > 0
  {
    forall i: nat, j: nat :: i < j < size - 1 ==> Power(primitive, size, i) != Power(primitive, size, j)
  }

  /** The tables. Vectors of C++ `short` become sequences; they never change after construction. */
  datatype GF = GF(size: nat, generatorBase: nat, expTable: seq<nat>, logTable: seq<nat>)

  /** What the constructor leaves in the tables, whatever the polynomial: powers of alpha, repeated with
      period size - 1 in the upper half, and for every power one exponent that yields it. */
  ghost predicate BuiltFrom(f: GF, primitive: nat) {
    && f.size >= 2
    && |f.expTable| == 2 * f.size && |f.logTable| == f.size
    && (forall i: nat :: i < f.size - 1 ==> f.expTable[i] == Power(primitive, f.size, i) < f.size)
    && (forall i: nat :: f.size - 1 <= i < 2 * f.size ==> f.expTable[i] == f.expTable[i - (f.size - 1)])
    && (forall a: nat :: a < f.size ==> f.logTable[a] < f.size - 1)
    && (forall i: nat :: i < f.size - 1 ==>
          f.expTable[f.logTable[f.expTable[i]]] == f.expTable[i])
  }

  ghost predicate IsField(f: GF) {
    exists primitive: nat, m: nat :: Primitive(primitive, f.size, m) && BuiltFrom(f, primitive)
  }

  // ----- Step is an injective linear map on the elements below size

  lemma StepBound(p: nat, m: nat, x: nat)
    requires m > 0 && x < Pow2(m)
    ensures Step(p, Pow2(m), x) < Pow2(m)
  {
  }

  lemma StepAsMod(p: nat, m: nat, x: nat)
    requires m > 0 && x < Pow2(m)
    ensures Step(p, Pow2(m), x) == Xor(2 * x, if 2 * x < Pow2(m) then 0 else p) % Pow2(m)
  {
    hide Xor;
    XorZero(2 * x);
    if 2 * x < Pow2(m) {
      ModUnique(2 * x, Pow2(m), 0, 2 * x);
    }
  }

  lemma TopBitXor(m: nat, x: nat, y: nat)
    requires x < Pow2(m) && y < Pow2(m)
    ensures Xor(x, y) < Pow2(m)
    ensures 2 * Xor(x, y) < Pow2(m) <==> (2 * x < Pow2(m) <==> 2 * y < Pow2(m))
  {
    XorBound(x, y, m);
    if m == 0 {
      assert Xor(0, 0) == 0;
    } else if m == 1 {
      assert x < 2 && y < 2;
    } else {
      TopBitXor(m - 1, x / 2, y / 2);
      XorDigits(x, y);
    }
  }

  lemma StepLinear(p: nat, m: nat, x: nat, y: nat)
    requires m > 0 && x < Pow2(m) && y < Pow2(m)
    ensures Xor(x, y) < Pow2(m)
    ensures Step(p, Pow2(m), Xor(x, y)) == Xor(Step(p, Pow2(m), x), Step(p, Pow2(m), y))
  {
    hide Xor;
    var n := Pow2(m);
    XorBound(x, y, m);
    TopBitXor(m, x, y);
    StepAsMod(p, m, x);
    StepAsMod(p, m, y);
    StepAsMod(p, m, Xor(x, y));
    XorDouble(x, y);
    var cx := if 2 * x < n then 0 else p;
    var cy := if 2 * y < n then 0 else p;
    XorSelf(p);
    XorSelf(0);
    XorZero(p);
    assert (if 2 * Xor(x, y) < n then 0 else p) == Xor(cx, cy);
    XorExchange(2 * x, cx, 2 * y, cy);
    XorExchange(2 * x, 2 * y, cx, cy);
    XorMod(Xor(2 * x, cx), Xor(2 * y, cy), m);
  }

  lemma StepKernel(p: nat, m: nat, x: nat)
    requires m > 0 && x < Pow2(m) && p % 2 == 1
    requires Step(p, Pow2(m), x) == 0
    ensures x == 0
  {
    if 2 * x >= Pow2(m) {
      XorDigits(2 * x, p);
      ModPow2(Xor(2 * x, p), m);
      assert false;
    }
  }

  lemma StepInjective(p: nat, m: nat, x: nat, y: nat)
    requires m > 0 && x < Pow2(m) && y < Pow2(m) && p % 2 == 1
    requires Step(p, Pow2(m), x) == Step(p, Pow2(m), y)
    ensures x == y
  {
    hide Xor, Step;
    StepLinear(p, m, x, y);
    XorSelf(Step(p, Pow2(m), x));
    StepKernel(p, m, Xor(x, y));
    XorCancel(x, y);
  }

  lemma {:induction false} StepsLinear(p: nat, m: nat, n: nat, x: nat, y: nat)
    requires m > 0 && x < Pow2(m) && y < Pow2(m)
    ensures Steps(p, Pow2(m), n, x) < Pow2(m)
    ensures Steps(p, Pow2(m), n, y) < Pow2(m)
    ensures Steps(p, Pow2(m), n, Xor(x, y)) == Xor(Steps(p, Pow2(m), n, x), Steps(p, Pow2(m), n, y))
  {
    hide Xor, Step;
    if n > 0 {
      StepsLinear(p, m, n - 1, x, y);
      StepBound(p, m, Steps(p, Pow2(m), n - 1, x));
      StepBound(p, m, Steps(p, Pow2(m), n - 1, y));
      StepLinear(p, m, Steps(p, Pow2(m), n - 1, x), Steps(p, Pow2(m), n - 1, y));
    }
  }

  lemma {:induction false} StepsAdd(p: nat, size: nat, a: nat, b: nat, x: nat)
    requires size > 0
    ensures Steps(p, size, a + b, x) == Steps(p, size, a, Steps(p, size, b, x))
  {
    hide Step;
    if a > 0 {
      StepsAdd(p, size, a - 1, b, x);
    }
  }

  lemma {:induction false} StepsZero(p: nat, size: nat, n: nat)
    requires size > 0
    ensures Steps(p, size, n, 0) == 0
  {
    if n > 0 {
      StepsZero(p, size, n - 1);
    }
  }

  lemma {:induction false} StepsInjective(p: nat, m: nat, n: nat, x: nat, y: nat)
    requires m > 0 && x < Pow2(m) && y < Pow2(m) && p % 2 == 1
    requires Steps(p, Pow2(m), n, x) == Steps(p, Pow2(m), n, y)
    ensures x == y
  {
    hide Step;
    if n > 0 {
      StepsLinear(p, m, n - 1, x, y);
      StepInjective(p, m, Steps(p, Pow2(m), n - 1, x), Steps(p, Pow2(m), n - 1, y));
      StepsInjective(p, m, n - 1, x, y);
    }
  }

  // ----- the powers of alpha run through every nonzero element

  lemma PowerRange(p: nat, m: nat, n: nat)
    requires Primitive(p, Pow2(m), m)
    ensures 0 < Power(p, Pow2(m), n) < Pow2(m)
  {
    hide Step;
    assert Pow2(m) == 2 * Pow2(m - 1);
    StepsLinear(p, m, n, 1, 0);
    if Power(p, Pow2(m), n) == 0 {
      StepsZero(p, Pow2(m), n);
      StepsInjective(p, m, n, 1, 0);
    }
  }

  ghost function PowersBelow(p: nat, size: nat, n: nat): set<nat>
    requires size > 0
  {
    set i: nat | i < n :: Power(p, size, i)
  }

  lemma {:induction false} PowersBelowSize(p: nat, m: nat, n: nat)
    requires Primitive(p, Pow2(m), m) && n <= Pow2(m) - 1
    ensures |PowersBelow(p, Pow2(m), n)| == n
  {
    hide Power;
    var size := Pow2(m);
    if n == 0 {
      assert PowersBelow(p, size, 0) == {};
    } else {
      PowersBelowSize(p, m, n - 1);
      assert PowersBelow(p, size, n) == PowersBelow(p, size, n - 1) + {Power(p, size, n - 1)};
    }
  }

  ghost function Between(lo: nat, hi: nat): (s: set<nat>)
    ensures forall i: nat :: i in s <==> lo <= i < hi
    ensures |s| == if lo <= hi then hi - lo else 0
    decreases hi
  {
    if hi <= lo then {} else Between(lo, hi - 1) + {hi - 1}
  }

  lemma SubsetSameSize(s: set<nat>, t: set<nat>)
    requires s <= t && |s| == |t|
    ensures s == t
  {
    if t - s != {} {
      var x :| x in t - s;
      assert s <= t - {x};
      SubsetSize(s, t - {x});
    }
  }

  lemma {:induction false} SubsetSize(s: set<nat>, t: set<nat>)
    requires s <= t
    ensures |s| <= |t|
    decreases |s|
  {
    if s != {} {
      var x :| x in s;
      SubsetSize(s - {x}, t - {x});
    }
  }

  lemma EveryElementIsAPower(p: nat, m: nat, a: nat) returns (i: nat)
    requires Primitive(p, Pow2(m), m) && 0 < a < Pow2(m)
    ensures i < Pow2(m) - 1 && Power(p, Pow2(m), i) == a
  {
    hide Power;
    var size := Pow2(m);
    PowersBelowSize(p, m, size - 1);
    forall i: nat | i < size - 1 ensures Power(p, size, i) in Between(1, size) {
      PowerRange(p, m, i);
    }
    SubsetSameSize(PowersBelow(p, size, size - 1), Between(1, size));
    assert a in PowersBelow(p, size, size - 1);
    i :| 0 <= i < size - 1 && Power(p, size, i) == a;
  }

  lemma PowerPeriod(p: nat, m: nat)
    requires Primitive(p, Pow2(m), m)
    ensures Power(p, Pow2(m), Pow2(m) - 1) == 1
  {
    hide Step;
    var size := Pow2(m);
    assert size == 2 * Pow2(m - 1);
    var last := size - 1;
    PowerRange(p, m, last);
    var j := EveryElementIsAPower(p, m, Power(p, size, last));
    if j > 0 {
      PowerRange(p, m, last - 1);
      PowerRange(p, m, j - 1);
      StepInjective(p, m, Power(p, size, last - 1), Power(p, size, j - 1));
      assert false;
    }
  }

  lemma PowerShift(p: nat, m: nat, n: nat)
    requires Primitive(p, Pow2(m), m)
    ensures Power(p, Pow2(m), n + (Pow2(m) - 1)) == Power(p, Pow2(m), n)
  {
    hide Step;
    PowerPeriod(p, m);
    StepsAdd(p, Pow2(m), n, Pow2(m) - 1, 1);
  }

  // ----- table lookups (GenericGF.h) and the field laws

  /** The smallest field, {0, 1}; it only shows that the type Field is inhabited. */
  const BINARY_FIELD := GF(2, 0, [1, 1, 1, 1], [0, 0])

  lemma BinaryFieldIsField()
    ensures IsField(BINARY_FIELD)
  {
    assert Pow2(1) == 2 && Pow2(0) == 1;
    assert Power(3, 2, 0) == 1;
    assert Primitive(3, 2, 1);
    assert BuiltFrom(BINARY_FIELD, 3);
  }

  ghost function FieldWitness(): (f: GF)
    ensures IsField(f)
  {
    BinaryFieldIsField();
    BINARY_FIELD
  }

  type Field = f: GF | IsField(f) ghost witness FieldWitness()

  lemma FieldPowers(f: Field) returns (p: nat, m: nat)
    ensures Primitive(p, f.size, m) && BuiltFrom(f, p)
    ensures forall i: nat :: i < 2 * f.size ==> f.expTable[i] == Power(p, f.size, i)
    ensures forall a: nat :: 0 < a < f.size ==> f.logTable[a] < f.size - 1 && Power(p, f.size, f.logTable[a]) == a
  {
    hide Power, Step, Steps;
    p, m :| Primitive(p, f.size, m) && BuiltFrom(f, p);
    var n := f.size - 1;
    forall i: nat | i < 2 * f.size
      ensures f.expTable[i] == Power(p, f.size, i)
    {
      ExpTableIsPower(f, p, m, i);
    }
    forall a: nat | 0 < a < f.size
      ensures f.logTable[a] < n && Power(p, f.size, f.logTable[a]) == a
    {
      var i := EveryElementIsAPower(p, m, a);
      assert f.expTable[i] == a;
    }
  }

  lemma {:induction false} ExpTableIsPower(f: GF, p: nat, m: nat, i: nat)
    requires Primitive(p, f.size, m) && BuiltFrom(f, p) && i < 2 * f.size
    ensures f.expTable[i] == Power(p, f.size, i)
  {
    hide Power, Step, Steps;
    var n := f.size - 1;
    if i >= n {
      ExpTableIsPower(f, p, m, i - n);
      PowerShift(p, m, i - n);
    }
  }

  /** 2 to the power of a; the source's range-checked access becomes the precondition. */
  function Exp(f: GF, a: nat): nat
    requires a < |f.expTable|
  {
    f.expTable[a]
  }

  /** The base-2 logarithm; the source throws on 0, which no caller here passes. */
  function Log(f: GF, a: nat): nat
    requires 0 < a < |f.logTable|
  {
    f.logTable[a]
  }

  lemma TableRange(f: Field)
    ensures f.size >= 2 && |f.expTable| == 2 * f.size && |f.logTable| == f.size
    ensures forall a: nat :: a < f.size ==> f.logTable[a] < f.size - 1
    ensures forall i: nat :: i < 2 * f.size ==> 0 < f.expTable[i] < f.size
  {
    hide Power, Step, Steps;
    var p, m := FieldPowers(f);
    forall i: nat | i < 2 * f.size ensures 0 < f.expTable[i] < f.size {
      PowerRange(p, m, i);
    }
  }

  function Inverse(f: Field, a: nat): (r: nat)
    requires 0 < a < f.size
    ensures 0 < r < f.size
  {
    TableRange(f);
    f.expTable[f.size - Log(f, a) - 1]
  }

  function Multiply(f: Field, a: nat, b: nat): (r: nat)
    requires a < f.size && b < f.size
    ensures r < f.size
  {
    TableRange(f);
    if a == 0 || b == 0 then 0 else f.expTable[f.logTable[a] + f.logTable[b]]
  }

  function Reduce(size: nat, a: nat): (r: nat)
    requires size > 0
    ensures r < size
    ensures a < size ==> r == a
  {
    a % size
  }

  /** Multiply extended to all naturals by reducing the operands first; it spares the polynomial algebra
      the range side conditions. */
  function Mul(f: Field, a: nat, b: nat): (r: nat)
    ensures f.size >= 2
    ensures r < f.size
    ensures a < f.size && b < f.size ==> r == Multiply(f, a, b)
  {
    TableRange(f);
    Multiply(f, Reduce(f.size, a), Reduce(f.size, b))
  }

  lemma MultiplyIsSteps(f: Field, p: nat, m: nat, a: nat, b: nat)
    requires Primitive(p, f.size, m) && BuiltFrom(f, p)
    requires 0 < a < f.size && b < f.size
    ensures Multiply(f, a, b) == Steps(p, f.size, f.logTable[a], b)
  {
    hide Step;
    TableRange(f);
    LogOf(f, p, m, a);
    if b == 0 {
      StepsZero(p, f.size, f.logTable[a]);
    } else {
      LogOf(f, p, m, b);
      ExpTableIsPower(f, p, m, f.logTable[a] + f.logTable[b]);
      StepsAdd(p, f.size, f.logTable[a], f.logTable[b], 1);
    }
  }

  lemma LogOf(f: Field, p: nat, m: nat, a: nat)
    requires Primitive(p, f.size, m) && BuiltFrom(f, p)
    requires 0 < a < f.size
    ensures f.logTable[a] < f.size - 1 && Power(p, f.size, f.logTable[a]) == a
  {
    hide Power;
    var i := EveryElementIsAPower(p, m, a);
    assert f.expTable[i] == a;
  }

  lemma MultiplyComm(f: Field, a: nat, b: nat)
    requires a < f.size && b < f.size
    ensures Multiply(f, a, b) == Multiply(f, b, a)
  {
  }

  lemma MultiplyNonzero(f: Field, a: nat, b: nat)
    requires a < f.size && b < f.size
    ensures Multiply(f, a, b) == 0 <==> a == 0 || b == 0
  {
    TableRange(f);
  }

  lemma MultiplyAssoc(f: Field, a: nat, b: nat, c: nat)
    requires a < f.size && b < f.size && c < f.size
    ensures Multiply(f, Multiply(f, a, b), c) == Multiply(f, a, Multiply(f, b, c))
  {
    MultiplyNonzero(f, a, b);
    MultiplyNonzero(f, b, c);
    if a != 0 && c != 0 {
      hide Power, Multiply;
      var p, m := FieldPowers(f);
      var la, lc := f.logTable[a], f.logTable[c];
      MultiplyComm(f, Multiply(f, a, b), c);
      MultiplyComm(f, b, c);
      MultiplyIsSteps(f, p, m, c, Multiply(f, a, b));
      MultiplyIsSteps(f, p, m, a, b);
      MultiplyIsSteps(f, p, m, a, Multiply(f, b, c));
      MultiplyIsSteps(f, p, m, c, b);
      StepsAdd(p, f.size, la, lc, b);
      StepsAdd(p, f.size, lc, la, b);
    }
  }

  lemma XorInRange(f: Field, a: nat, b: nat)
    requires a < f.size && b < f.size
    ensures Xor(a, b) < f.size
  {
    hide Power, Step, Steps, Xor;
    var p, m := FieldPowers(f);
    XorBound(a, b, m);
  }

  lemma MultiplyDistributes(f: Field, a: nat, b: nat, c: nat)
    requires a < f.size && b < f.size && c < f.size
    ensures Xor(b, c) < f.size
    ensures Multiply(f, a, Xor(b, c)) == Xor(Multiply(f, a, b), Multiply(f, a, c))
  {
    XorInRange(f, b, c);
    if a != 0 {
      hide Power, Multiply, Xor;
      var p, m := FieldPowers(f);
      MultiplyIsSteps(f, p, m, a, b);
      MultiplyIsSteps(f, p, m, a, c);
      MultiplyIsSteps(f, p, m, a, Xor(b, c));
      StepsLinear(p, m, f.logTable[a], b, c);
    } else {
      XorZero(0);
    }
  }

  lemma MultiplyOne(f: Field, a: nat)
    requires a < f.size
    ensures f.size >= 2
    ensures Multiply(f, 1, a) == a
  {
    hide Step;
    TableRange(f);
    if a != 0 {
      var p, m := FieldPowers(f);
      MultiplyComm(f, 1, a);
      MultiplyIsSteps(f, p, m, a, 1);
      LogOf(f, p, m, a);
    }
  }

  lemma InverseIsInverse(f: Field, a: nat)
    requires 0 < a < f.size
    ensures Multiply(f, a, Inverse(f, a)) == 1
  {
    hide Step, Multiply;
    TableRange(f);
    var p, m := FieldPowers(f);
    var la := f.logTable[a];
    var n := f.size - 1;
    LogOf(f, p, m, a);
    MultiplyIsSteps(f, p, m, a, Inverse(f, a));
    ExpTableIsPower(f, p, m, n - la);
    StepsAdd(p, f.size, la, n - la, 1);
    PowerPeriod(p, m);
  }

  // ----- the same laws for the total product Mul

  lemma MulComm(f: Field, a: nat, b: nat)
    ensures Mul(f, a, b) == Mul(f, b, a)
  {
    hide Multiply;
    TableRange(f);
    MultiplyComm(f, Reduce(f.size, a), Reduce(f.size, b));
  }

  lemma MulAssoc(f: Field, a: nat, b: nat, c: nat)
    ensures Mul(f, Mul(f, a, b), c) == Mul(f, a, Mul(f, b, c))
  {
    hide Multiply;
    TableRange(f);
    MultiplyAssoc(f, Reduce(f.size, a), Reduce(f.size, b), Reduce(f.size, c));
  }

  lemma MulXor(f: Field, a: nat, b: nat, c: nat)
    ensures Mul(f, a, Xor(b, c)) == Xor(Mul(f, a, b), Mul(f, a, c))
    ensures Mul(f, Xor(b, c), a) == Xor(Mul(f, b, a), Mul(f, c, a))
  {
    hide Multiply, Xor;
    TableRange(f);
    var p, m := FieldPowers(f);
    XorMod(b, c, m);
    MultiplyDistributes(f, Reduce(f.size, a), Reduce(f.size, b), Reduce(f.size, c));
    MulComm(f, a, Xor(b, c));
    MulComm(f, a, b);
    MulComm(f, a, c);
  }

  lemma MulZero(f: Field, a: nat)
    ensures Mul(f, a, 0) == 0
    ensures Mul(f, 0, a) == 0
  {
    TableRange(f);
  }

  lemma MulOne(f: Field, a: nat)
    requires a < f.size
    ensures Mul(f, 1, a) == a
    ensures Mul(f, a, 1) == a
  {
    hide Multiply;
    TableRange(f);
    MultiplyOne(f, a);
    MulComm(f, 1, a);
  }

  lemma MulNonzero(f: Field, a: nat, b: nat)
    requires 0 < a < f.size && 0 < b < f.size
    ensures 0 < Mul(f, a, b) < f.size
  {
    MultiplyNonzero(f, a, b);
  }

  lemma MulInverse(f: Field, a: nat)
    requires 0 < a < f.size
    ensures Mul(f, a, Inverse(f, a)) == 1
    ensures Mul(f, Inverse(f, a), a) == 1
  {
    hide Multiply;
    InverseIsInverse(f, a);
    MulComm(f, a, Inverse(f, a));
  }

  // ----- the constructor

  lemma PowerStep(p: nat, size: nat, i: nat)
    requires size > 0
    ensures Power(p, size, 0) == 1
    ensures Power(p, size, i + 1) == Step(p, size, Power(p, size, i))
  {
    hide Step;
  }

  /** GenericGF::GenericGF: fills the tables in loops over a running power x. */
  method MakeGF(primitive: nat, size: nat, b: nat, ghost m: nat) returns (f: GF)
    requires m > 0 && size == Pow2(m)
    ensures f.size == size && f.generatorBase == b
    ensures BuiltFrom(f, primitive)
    ensures Primitive(primitive, size, m) ==> IsField(f)
  {
    hide Step, Power, Primitive, Xor;
    assert size == 2 * Pow2(m - 1);
    var exp := new nat[2 * size](_ => 0);
    var x := 1;
    PowerStep(primitive, size, 0);
    for i := 0 to size
      invariant x == Power(primitive, size, i) < size
      invariant forall k: nat :: k < i ==> exp[k] == Power(primitive, size, k) < size
    {
      exp[i] := x;
      StepBound(primitive, m, x);
      PowerStep(primitive, size, i);
      x := Step(primitive, size, x);
    }
    for i := size - 1 to 2 * size
      invariant forall k: nat :: k < size - 1 ==> exp[k] == Power(primitive, size, k) < size
      invariant forall k: nat :: size - 1 <= k < i ==> exp[k] == exp[k - (size - 1)]
    {
      exp[i] := exp[i - (size - 1)];
    }
    ghost var powers := exp[..];
    var log := new nat[size](_ => 0);
    for i := 0 to size - 1
      invariant exp[..] == powers
      invariant forall a: nat :: a < size ==> log[a] < size - 1
      invariant forall k: nat :: k < i ==> powers[log[powers[k]]] == powers[k]
    {
      log[exp[i]] := i;
    }
    f := GF(size, b, exp[..], log[..]);
  }
}
