// The polynomials that GenericGF.cpp passes to its constructor, and that each of them makes a field
// (zxing-core/src/GenericGF.cpp:11-65, aztec/AZEncoder.cpp:45-55). Powers of alpha are computed on machine words.
module ConcreteFields {
  import opened BitOps
  import opened GenericGF
  import opened FieldOrder
  import opened Options

  type Word = bv16

  /** A polynomial of degree m as a word, and the highest bit of a residue. */
  datatype Ring = Ring(poly: Word, top: Word, m: nat)

  predicate Fits(r: Ring) {
    && (r.m == 4 || r.m == 6 || r.m == 8 || r.m == 10 || r.m == 12)
    && r.top == (if r.m == 4 then 0x8 else if r.m == 6 then 0x20 else if r.m == 8 then 0x80
                 else if r.m == 10 then 0x200 else 0x800)
    && r.poly < r.top << 2 && r.poly & (r.top << 1) != 0
  }

  function Half(z: Word): Word {
    z >> 1
  }

  function Twice(z: Word): Word {
    z << 1
  }

  function Low(z: Word): (b: nat)
    ensures b < 2
  {
    if z & 1 == 1 then 1 else 0
  }

  function Plus(a: Word, b: Word): Word {
    a ^ b
  }

  /** The number in the low n bits of a word. */
  function Val(z: Word, n: nat): nat {
    if n == 0 then 0 else 2 * Val(Half(z), n - 1) + Low(z)
  }

  function Poly(r: Ring): nat {
    Val(r.poly, r.m + 1)
  }

  function Size(r: Ring): (s: nat)
    ensures s > 0
  {
    Pow2(r.m)
  }

  function StepWord(r: Ring, x: Word): Word {
    if x & r.top == 0 then Twice(x) else Plus(Twice(x), r.poly)
  }

  function Horner(r: Ring, x: Word, acc: Word, w: Word): Word {
    Plus(StepWord(r, acc), if Low(w) == 1 then x else 0)
  }

  /** The product of two residues of at most twelve bits. */
  function MulWord(r: Ring, x: Word, y: Word): Word {
    var a11 := Horner(r, x, 0, y >> 11);
    var a10 := Horner(r, x, a11, y >> 10);
    var a9 := Horner(r, x, a10, y >> 9);
    var a8 := Horner(r, x, a9, y >> 8);
    var a7 := Horner(r, x, a8, y >> 7);
    var a6 := Horner(r, x, a7, y >> 6);
    var a5 := Horner(r, x, a6, y >> 5);
    var a4 := Horner(r, x, a5, y >> 4);
    var a3 := Horner(r, x, a4, y >> 3);
    var a2 := Horner(r, x, a3, y >> 2);
    var a1 := Horner(r, x, a2, y >> 1);
    Horner(r, x, a1, y)
  }

  // ----- words and numbers

  lemma PlusBits(a: Word, b: Word)
    ensures Half(Plus(a, b)) == Plus(Half(a), Half(b))
    ensures Low(Plus(a, b)) == (Low(a) + Low(b)) % 2
  {
    assert (a ^ b) >> 1 == (a >> 1) ^ (b >> 1);
    assert ((a ^ b) & 1 == 1) == ((a & 1 == 1) != (b & 1 == 1));
  }

  lemma {:induction false} ValPlus(a: Word, b: Word, n: nat)
    ensures Val(Plus(a, b), n) == Xor(Val(a, n), Val(b, n))
    decreases n
  {
    PlusBits(a, b);
    hide Plus, Half, Low, Xor, Val;
    if n == 0 {
      NoBits(a);
      NoBits(b);
      NoBits(Plus(a, b));
      XorZero(0);
    } else {
      ValPlus(Half(a), Half(b), n - 1);
      ValDigits(a, n);
      ValDigits(b, n);
      ValDigits(Plus(a, b), n);
      XorDigits(Val(a, n), Val(b, n));
      SameDigits(Val(Plus(a, b), n), Xor(Val(a, n), Val(b, n)));
    }
  }

  lemma NoBits(z: Word)
    ensures Val(z, 0) == 0
  {
  }

  lemma ValDigits(z: Word, n: nat)
    requires n > 0
    ensures Val(z, n) / 2 == Val(Half(z), n - 1) && Val(z, n) % 2 == Low(z)
  {
    hide Half, Low;
  }

  lemma {:induction false} ValBound(z: Word, n: nat)
    ensures Val(z, n) < Pow2(n)
    decreases n
  {
    hide Half, Low;
    if n > 0 {
      ValBound(Half(z), n - 1);
    }
  }

  lemma {:induction false} ValZero(n: nat)
    ensures Val(0, n) == 0
  {
    if n > 0 {
      assert Half(0) == 0;
      ValZero(n - 1);
    }
  }

  /** The word whose only bit is bit n. */
  predicate IsBit(top: Word, n: nat)
    decreases n
  {
    if n == 0 then top == 1 else Low(top) == 0 && IsBit(Half(top), n - 1)
  }

  predicate Meets(z: Word, top: Word) {
    z & top != 0
  }

  lemma MeetsHalf(z: Word, top: Word)
    ensures Low(top) == 0 ==> Meets(z, top) == Meets(Half(z), Half(top))
    ensures Meets(z, 1) <==> Low(z) == 1
  {
    AndHalf(z, top);
    HalfZero(z & top);
    LowBit(z);
    LowBit(top);
  }

  lemma AndHalf(z: Word, top: Word)
    ensures (z >> 1) & (top >> 1) == (z & top) >> 1
    ensures top & 1 == 0 ==> (z & top) & 1 == 0
  {
  }

  lemma HalfZero(y: Word)
    ensures y & 1 == 0 ==> (y == 0) == (y >> 1 == 0)
  {
  }

  lemma LowBit(z: Word)
    ensures z & 1 == 0 || z & 1 == 1
  {
  }

  lemma {:induction false} TopBit(z: Word, top: Word, n: nat)
    requires IsBit(top, n)
    ensures Val(z, n + 1) == Val(z, n) + if Meets(z, top) then Pow2(n) else 0
    decreases n
  {
    MeetsHalf(z, top);
    hide Meets, Half, Low;
    if n == 0 {
      assert Val(Half(z), 0) == 0;
    } else {
      TopBit(Half(z), Half(top), n - 1);
    }
  }

  lemma Bits()
    ensures IsBit(0x8, 3) && IsBit(0x10, 4) && IsBit(0x20, 5) && IsBit(0x40, 6) && IsBit(0x80, 7) && IsBit(0x100, 8)
    ensures IsBit(0x200, 9) && IsBit(0x400, 10) && IsBit(0x800, 11) && IsBit(0x1000, 12)
  {
    assert IsBit(1, 0);
    assert IsBit(2, 1);
    assert IsBit(4, 2);
    assert IsBit(8, 3);
    assert IsBit(16, 4);
    assert IsBit(32, 5);
    assert IsBit(64, 6);
    assert IsBit(128, 7);
    assert IsBit(256, 8);
    assert IsBit(512, 9);
    assert IsBit(1024, 10);
    assert IsBit(2048, 11);
    assert IsBit(4096, 12);
  }

  lemma RingBits(r: Ring)
    requires Fits(r)
    ensures r.m > 0 && IsBit(r.top, r.m - 1) && IsBit(Twice(r.top), r.m)
  {
    Bits();
    hide IsBit;
  }

  /** A residue fits below the bit of the degree. */
  predicate Residue(r: Ring, x: Word) {
    x < r.top << 1
  }

  lemma ResidueWords(r: Ring, x: Word)
    requires Fits(r) && Residue(r, x)
    ensures !Meets(x, Twice(r.top)) && Half(Twice(x)) == x && Low(Twice(x)) == 0
    ensures Residue(r, 0) && Residue(r, 1)
  {
  }

  lemma HalfResidue(r: Ring, x: Word)
    requires Fits(r) && Residue(r, x)
    ensures Residue(r, Half(x)) && !Meets(Half(x), r.top)
  {
  }

  lemma TwiceMeets(r: Ring, x: Word)
    requires Fits(r) && Residue(r, x)
    ensures Meets(x, r.top) == Meets(Twice(x), Twice(r.top))
  {
  }

  lemma StepResidue(r: Ring, x: Word)
    requires Fits(r) && Residue(r, x)
    ensures Residue(r, StepWord(r, x))
  {
  }

  lemma ResidueVal(r: Ring, x: Word)
    requires Fits(r) && Residue(r, x)
    ensures Val(x, r.m + 1) == Val(x, r.m) < Size(r)
  {
    RingBits(r);
    ResidueWords(r, x);
    hide Fits, Val, IsBit, Meets, Twice, Half, Low, Residue, StepWord;
    TopBit(x, Twice(r.top), r.m);
    ValBound(x, r.m);
  }

  lemma PlusResidue(r: Ring, x: Word, y: Word)
    requires Fits(r) && Residue(r, x) && Residue(r, y)
    ensures Residue(r, Plus(x, y))
  {
  }

  /** StepWord is the constructor's step. */
  lemma StepWordIsStep(r: Ring, x: Word)
    requires Fits(r) && Residue(r, x)
    ensures Val(StepWord(r, x), r.m) == Step(Poly(r), Size(r), Val(x, r.m))
  {
    StepResidue(r, x);
    TwiceMeets(r, x);
    StepIs(r, x);
    hide Fits, Twice, Residue, Xor, Plus, StepWord, Val, Meets, Poly, Size;
    ResidueVal(r, StepWord(r, x));
    TwiceVal(r, x);
    if Meets(x, r.top) {
      ReducedVal(r, x);
      Reduced(Poly(r), Size(r), Val(x, r.m), Val(StepWord(r, x), r.m));
    }
  }

  lemma ReducedVal(r: Ring, x: Word)
    requires Val(Twice(x), r.m + 1) == 2 * Val(x, r.m)
    ensures Val(Plus(Twice(x), r.poly), r.m + 1) == Xor(2 * Val(x, r.m), Poly(r))
  {
    hide Twice, Xor, Plus, Val;
    ValPlus(Twice(x), r.poly, r.m + 1);
  }

  lemma Reduced(p: nat, size: nat, v: nat, y: nat)
    requires size > 0 && 2 * v >= size && y == Xor(2 * v, p) < size
    ensures Step(p, size, v) == y
  {
    hide Xor;
    ModUnique(y, size, 0, y);
  }

  lemma TwiceVal(r: Ring, x: Word)
    requires Fits(r) && Residue(r, x)
    ensures Val(Twice(x), r.m + 1) == 2 * Val(x, r.m)
    ensures Meets(Twice(x), Twice(r.top)) <==> 2 * Val(x, r.m) >= Size(r)
    ensures Val(Twice(x), r.m) < Size(r)
    ensures !Meets(Twice(x), Twice(r.top)) ==> Val(Twice(x), r.m) == 2 * Val(x, r.m)
  {
    RingBits(r);
    ResidueWords(r, x);
    hide Fits, IsBit, Twice, Half, Low, Residue, Meets;
    TopBit(Twice(x), Twice(r.top), r.m);
    ValBound(Twice(x), r.m);
  }

  lemma StepIs(r: Ring, x: Word)
    ensures StepWord(r, x) == if Meets(x, r.top) then Plus(Twice(x), r.poly) else Twice(x)
  {
  }

  // ----- powers

  predicate IsPower(r: Ring, n: nat, x: Word) {
    Residue(r, x) && Val(x, r.m) == Power(Poly(r), Size(r), n)
  }

  function Ahead(r: Ring, n: nat, y: nat): nat {
    Steps(Poly(r), Size(r), n, y)
  }

  /** One bit of a residue more. */
  lemma AheadBit(r: Ring, n: nat, u: nat, bit: bool)
    requires r.m > 0 && 2 * u < Size(r)
    ensures Ahead(r, n, 2 * u + if bit then 1 else 0) ==
            Xor(Step(Poly(r), Size(r), Ahead(r, n, u)), if bit then Ahead(r, n, 1) else 0)
  {
    hide Val, Xor;
    var b := if bit then 1 else 0;
    Pow2Next(r.m - 1);
    StepsAdd(Poly(r), Size(r), n, 1, u);
    StepsAdd(Poly(r), Size(r), 1, n, u);
    OneStep(Poly(r), Size(r), u);
    OneStep(Poly(r), Size(r), Ahead(r, n, u));
    StepsZero(Poly(r), Size(r), n);
    EvenXor(u, b);
    hide Pow2, Steps;
    StepsLinear(Poly(r), r.m, n, 2 * u, b);
  }

  lemma OneStep(p: nat, size: nat, x: nat)
    requires size > 0
    ensures Steps(p, size, 1, x) == Step(p, size, x)
    ensures 2 * x < size ==> Step(p, size, x) == 2 * x
  {
    hide Xor;
    assert Steps(p, size, 0, x) == x;
  }

  lemma EvenXor(u: nat, b: nat)
    requires b < 2
    ensures Xor(2 * u, b) == 2 * u + b
  {
    XorDigits(2 * u, b);
    assert 2 * u / 2 == u && b / 2 == 0;
    XorZero(u);
    hide Xor;
    SameDigits(Xor(2 * u, b), 2 * u + b);
  }

  lemma HornerStep(r: Ring, n: nat, x: Word, acc: Word, w: Word)
    requires Fits(r) && IsPower(r, n, x) && Residue(r, w)
    requires Residue(r, acc) && Val(acc, r.m) == Ahead(r, n, Val(Half(w), r.m))
    ensures Residue(r, Horner(r, x, acc, w)) && Val(Horner(r, x, acc, w), r.m) == Ahead(r, n, Val(w, r.m))
  {
    RingBits(r);
    StepResidue(r, acc);
    ResidueWords(r, w);
    var s, y := StepWord(r, acc), if Low(w) == 1 then x else 0;
    hide Fits, IsBit, Residue, Xor, Step, Steps, StepWord, Plus, Half, Low, Twice, Meets;
    PlusResidue(r, s, y);
    hide Val, Pow2;
    StepWordIsStep(r, acc);
    ValZero(r.m);
    ValPlus(s, y, r.m);
    HalfVal(r, w);
    AheadBit(r, n, Val(Half(w), r.m), Low(w) == 1);
  }

  lemma HalfVal(r: Ring, w: Word)
    requires Fits(r) && Residue(r, w)
    ensures r.m > 0 && Val(w, r.m) == 2 * Val(Half(w), r.m) + Low(w) && 2 * Val(Half(w), r.m) < Size(r)
  {
    RingBits(r);
    HalfResidue(r, w);
    assert Val(w, r.m) == 2 * Val(Half(w), r.m - 1) + Low(w);
    hide Fits, IsBit, Half, Low, Meets, Val, Pow2;
    TopBit(Half(w), r.top, r.m - 1);
    ValBound(Half(w), r.m - 1);
    Pow2Next(r.m - 1);
  }

  /** The words on the way through a product. */
  predicate Partial(r: Ring, n: nat, acc: Word, w: Word) {
    Residue(r, w) && Residue(r, acc) && Val(acc, r.m) == Ahead(r, n, Val(w, r.m))
  }

  lemma NextPartial(r: Ring, n: nat, x: Word, acc: Word, w: Word)
    requires Fits(r) && IsPower(r, n, x) && Partial(r, n, acc, Half(w)) && Residue(r, w)
    ensures Partial(r, n, Horner(r, x, acc, w), w)
  {
    hide Fits, Val, Residue, Ahead, Horner, IsPower, Half;
    HornerStep(r, n, x, acc, w);
  }

  lemma FirstPartial(r: Ring, n: nat, y: Word)
    requires Fits(r) && Residue(r, y)
    ensures Partial(r, n, 0, y >> 12)
  {
    ResidueWords(r, y);
    assert y >> 12 == 0;
    hide Fits, Val, Residue, Steps, StepWord, Half, Low, Twice, Meets;
    ValZero(r.m);
    StepsZero(Poly(r), Size(r), n);
  }

  lemma Shifts(r: Ring, y: Word)
    requires Fits(r) && Residue(r, y)
    ensures Residue(r, y >> 11) && Half(y >> 11) == y >> 12
    ensures Residue(r, y >> 10) && Half(y >> 10) == y >> 11
    ensures Residue(r, y >> 9) && Half(y >> 9) == y >> 10
    ensures Residue(r, y >> 8) && Half(y >> 8) == y >> 9
    ensures Residue(r, y >> 7) && Half(y >> 7) == y >> 8
    ensures Residue(r, y >> 6) && Half(y >> 6) == y >> 7
    ensures Residue(r, y >> 5) && Half(y >> 5) == y >> 6
    ensures Residue(r, y >> 4) && Half(y >> 4) == y >> 5
    ensures Residue(r, y >> 3) && Half(y >> 3) == y >> 4
    ensures Residue(r, y >> 2) && Half(y >> 2) == y >> 3
    ensures Residue(r, y >> 1) && Half(y >> 1) == y >> 2
  {
  }

  /** MulWord adds the exponents of powers. */
  lemma MulWordIsPower(r: Ring, a: nat, x: Word, b: nat, y: Word)
    requires Fits(r) && IsPower(r, a, x) && IsPower(r, b, y)
    ensures IsPower(r, a + b, MulWord(r, x, y))
  {
    FirstPartial(r, a, y);
    Shifts(r, y);
    hide Fits, Val, Residue, Horner, Partial, Ahead, Half, IsPower;
    var a11 := Horner(r, x, 0, y >> 11);
    NextPartial(r, a, x, 0, y >> 11);
    var a10 := Horner(r, x, a11, y >> 10);
    NextPartial(r, a, x, a11, y >> 10);
    var a9 := Horner(r, x, a10, y >> 9);
    NextPartial(r, a, x, a10, y >> 9);
    var a8 := Horner(r, x, a9, y >> 8);
    NextPartial(r, a, x, a9, y >> 8);
    var a7 := Horner(r, x, a8, y >> 7);
    NextPartial(r, a, x, a8, y >> 7);
    var a6 := Horner(r, x, a7, y >> 6);
    NextPartial(r, a, x, a7, y >> 6);
    var a5 := Horner(r, x, a6, y >> 5);
    NextPartial(r, a, x, a6, y >> 5);
    var a4 := Horner(r, x, a5, y >> 4);
    NextPartial(r, a, x, a5, y >> 4);
    var a3 := Horner(r, x, a4, y >> 3);
    NextPartial(r, a, x, a4, y >> 3);
    var a2 := Horner(r, x, a3, y >> 2);
    NextPartial(r, a, x, a3, y >> 2);
    var a1 := Horner(r, x, a2, y >> 1);
    NextPartial(r, a, x, a2, y >> 1);
    NextPartial(r, a, x, a1, y);
    EndPartial(r, a, b, y, Horner(r, x, a1, y));
  }

  lemma EndPartial(r: Ring, a: nat, b: nat, y: Word, acc: Word)
    requires IsPower(r, b, y) && Partial(r, a, acc, y)
    ensures IsPower(r, a + b, acc)
  {
    hide Val, Residue, Steps;
    StepsAdd(Poly(r), Size(r), a, b, 1);
  }

  lemma Times(r: Ring, a: nat, x: Word, b: nat, y: Word, z: Word)
    requires Fits(r) && IsPower(r, a, x) && IsPower(r, b, y) && MulWord(r, x, y) == z
    ensures IsPower(r, a + b, z)
  {
    hide Fits, IsPower, MulWord;
    MulWordIsPower(r, a, x, b, y);
  }

  lemma Alpha(r: Ring)
    requires Fits(r)
    ensures IsPower(r, 1, 2)
  {
    OneIs(r);
    ResidueWords(r, 1);
    StepWordIsStep(r, 1);
    assert StepWord(r, 1) == 2;
    hide Fits, Val;
    OneStep(Poly(r), Size(r), 1);
  }

  lemma OneIs(r: Ring)
    requires Fits(r)
    ensures Residue(r, 1) && Val(1, r.m) == 1
  {
    assert Half(1) == 0;
    ValZero(r.m - 1);
  }

  /** A residue of value zero is zero. */
  lemma {:induction false} ValNonzero(z: Word, top: Word, n: nat)
    requires IsBit(top, n) && z < top && z != 0
    ensures Val(z, n) != 0
    decreases n
  {
    if n > 0 && Low(z) == 0 {
      HalfBelow(z, top);
      hide Half, Low;
      ValNonzero(Half(z), Half(top), n - 1);
    }
  }

  lemma HalfBelow(z: Word, top: Word)
    requires z < top && z != 0 && Low(z) == 0 && Low(top) == 0
    ensures Half(z) < Half(top) && Half(z) != 0
  {
  }

  lemma PlusOne(z: Word)
    requires z != 1
    ensures Plus(z, 1) != 0
  {
  }

  lemma UnitOnlyOne(r: Ring, n: nat, z: Word)
    requires Fits(r) && IsPower(r, n, z)
    ensures IsUnit(Poly(r), Size(r), n) <==> z == 1
  {
    OneIs(r);
    hide Fits, Val, Power, Residue;
    if z != 1 {
      OnlyOne(r, z);
    }
  }

  lemma OnlyOne(r: Ring, z: Word)
    requires Fits(r) && Residue(r, z) && z != 1
    ensures Val(z, r.m) != 1
  {
    OneIs(r);
    PlusOne(z);
    hide Fits, Val, Xor, Plus, Residue;
    PlusResidue(r, z, 1);
    ResidueNonzero(r, Plus(z, 1));
    ValPlus(z, 1, r.m);
    XorSelf(1);
  }

  lemma ResidueNonzero(r: Ring, z: Word)
    requires Fits(r) && Residue(r, z) && z != 0
    ensures Val(z, r.m) != 0
  {
    RingBits(r);
    hide Fits, Val, IsBit;
    ValNonzero(z, Twice(r.top), r.m);
  }

  lemma SmallPrimes()
    ensures Prime(3) && Prime(5) && Prime(7) && Prime(11) && Prime(13) && Prime(17) && Prime(31)
  {
    assert NoDivisor(3, 2);
    assert NoDivisor(5, 4);
    assert NoDivisor(7, 6);
    assert NoDivisor(11, 10);
    assert NoDivisor(13, 12);
    assert NoDivisor(17, 16);
    assert NoDivisor(31, 10);
    assert NoDivisor(31, 20);
    assert NoDivisor(31, 30);
  }

  // ----- AztecData12

  const AZTEC_DATA_12 := Ring(0x1069, 0x800, 12)

  lemma AztecData12Poly()
    ensures Fits(AZTEC_DATA_12) && Poly(AZTEC_DATA_12) == 0x1069 && Size(AZTEC_DATA_12) == 4096
  {
    SmallPowers();
    assert Val(0x1, 1) == 0x1;
    assert Val(0x2, 2) == 0x2;
    assert Val(0x4, 3) == 0x4;
    assert Val(0x8, 4) == 0x8;
    assert Val(0x10, 5) == 0x10;
    assert Val(0x20, 6) == 0x20;
    assert Val(0x41, 7) == 0x41;
    assert Val(0x83, 8) == 0x83;
    assert Val(0x106, 9) == 0x106;
    assert Val(0x20d, 10) == 0x20d;
    assert Val(0x41a, 11) == 0x41a;
    assert Val(0x834, 12) == 0x834;
    assert Val(0x1069, 13) == 0x1069;
  }

  lemma AztecData12Powers()
    requires Fits(AZTEC_DATA_12)
    ensures IsPower(AZTEC_DATA_12, 4095, 0x1)
    ensures IsPower(AZTEC_DATA_12, 1365, 0xa82)
    ensures IsPower(AZTEC_DATA_12, 819, 0x616)
    ensures IsPower(AZTEC_DATA_12, 585, 0x388)
    ensures IsPower(AZTEC_DATA_12, 315, 0x498)
  {
    hide Fits, IsPower;
    var r := AZTEC_DATA_12;
    Alpha(r);
    Times(r, 1, 0x2, 1, 0x2, 0x4);
    Times(r, 2, 0x4, 1, 0x2, 0x8);
    Times(r, 3, 0x8, 3, 0x8, 0x40);
    Times(r, 6, 0x40, 3, 0x8, 0x200);
    Times(r, 9, 0x200, 9, 0x200, 0xa29);
    Times(r, 18, 0xa29, 18, 0xa29, 0xf62);
    Times(r, 36, 0xf62, 3, 0x8, 0xa0f);
    Times(r, 39, 0xa0f, 39, 0xa0f, 0xb76);
    Times(r, 78, 0xb76, 39, 0xa0f, 0xec1);
    Times(r, 117, 0xec1, 117, 0xec1, 0x299);
    Times(r, 234, 0x299, 39, 0xa0f, 0xfdf);
    Times(r, 273, 0xfdf, 39, 0xa0f, 0x93);
    Times(r, 312, 0x93, 3, 0x8, 0x498);
    Times(r, 273, 0xfdf, 273, 0xfdf, 0x55d);
    Times(r, 546, 0x55d, 39, 0xa0f, 0x388);
    Times(r, 546, 0x55d, 273, 0xfdf, 0x616);
    Times(r, 546, 0x55d, 546, 0x55d, 0xfde);
    Times(r, 1092, 0xfde, 273, 0xfdf, 0xa82);
    Times(r, 1365, 0xa82, 1365, 0xa82, 0xa83);
    Times(r, 2730, 0xa83, 1365, 0xa82, 0x1);
  }

  lemma AztecData12Units()
    ensures IsUnit(0x1069, 4096, 4095)
    ensures !IsUnit(0x1069, 4096, 1365)
    ensures !IsUnit(0x1069, 4096, 819)
    ensures !IsUnit(0x1069, 4096, 585)
    ensures !IsUnit(0x1069, 4096, 315)
  {
    AztecData12Poly();
    AztecData12Powers();
    hide Fits, IsPower, IsUnit, Poly, Size;
    UnitOnlyOne(AZTEC_DATA_12, 4095, 0x1);
    UnitOnlyOne(AZTEC_DATA_12, 1365, 0xa82);
    UnitOnlyOne(AZTEC_DATA_12, 819, 0x616);
    UnitOnlyOne(AZTEC_DATA_12, 585, 0x388);
    UnitOnlyOne(AZTEC_DATA_12, 315, 0x498);
  }

  lemma AztecData12Primitive()
    ensures Primitive(0x1069, 4096, 12)
  {
    AztecData12Units();
    SmallPowers();
    SmallPrimes();
    hide *;
    var qs := [3, 3, 5, 7, 13];
    NoPrimes(0x1069, 4096, 4095, qs);
    OnePrime(0x1069, 4096, 4095, qs, 4, 1, 13);
    OnePrime(0x1069, 4096, 4095, qs, 3, 13, 7);
    OnePrime(0x1069, 4096, 4095, qs, 2, 91, 5);
    OnePrime(0x1069, 4096, 4095, qs, 1, 455, 3);
    OnePrime(0x1069, 4096, 4095, qs, 0, 1365, 3);
    CertifiedIsPrimitive(0x1069, 12, qs);
  }

  // ----- AztecData10

  const AZTEC_DATA_10 := Ring(0x409, 0x200, 10)

  lemma AztecData10Poly()
    ensures Fits(AZTEC_DATA_10) && Poly(AZTEC_DATA_10) == 0x409 && Size(AZTEC_DATA_10) == 1024
  {
    SmallPowers();
    assert Val(0x1, 1) == 0x1;
    assert Val(0x2, 2) == 0x2;
    assert Val(0x4, 3) == 0x4;
    assert Val(0x8, 4) == 0x8;
    assert Val(0x10, 5) == 0x10;
    assert Val(0x20, 6) == 0x20;
    assert Val(0x40, 7) == 0x40;
    assert Val(0x81, 8) == 0x81;
    assert Val(0x102, 9) == 0x102;
    assert Val(0x204, 10) == 0x204;
    assert Val(0x409, 11) == 0x409;
  }

  lemma AztecData10Powers()
    requires Fits(AZTEC_DATA_10)
    ensures IsPower(AZTEC_DATA_10, 1023, 0x1)
    ensures IsPower(AZTEC_DATA_10, 341, 0xed)
    ensures IsPower(AZTEC_DATA_10, 93, 0x2c9)
    ensures IsPower(AZTEC_DATA_10, 33, 0x26c)
  {
    hide Fits, IsPower;
    var r := AZTEC_DATA_10;
    Alpha(r);
    Times(r, 1, 0x2, 1, 0x2, 0x4);
    Times(r, 2, 0x4, 1, 0x2, 0x8);
    Times(r, 3, 0x8, 3, 0x8, 0x40);
    Times(r, 6, 0x40, 6, 0x40, 0x24);
    Times(r, 12, 0x24, 3, 0x8, 0x120);
    Times(r, 15, 0x120, 15, 0x120, 0x249);
    Times(r, 30, 0x249, 1, 0x2, 0x9b);
    Times(r, 31, 0x9b, 2, 0x4, 0x26c);
    Times(r, 31, 0x9b, 31, 0x9b, 0x1d5);
    Times(r, 62, 0x1d5, 31, 0x9b, 0x2c9);
    Times(r, 93, 0x2c9, 62, 0x1d5, 0xa);
    Times(r, 155, 0xa, 155, 0xa, 0x44);
    Times(r, 310, 0x44, 31, 0x9b, 0xed);
    Times(r, 341, 0xed, 341, 0xed, 0xec);
    Times(r, 682, 0xec, 341, 0xed, 0x1);
  }

  lemma AztecData10Units()
    ensures IsUnit(0x409, 1024, 1023)
    ensures !IsUnit(0x409, 1024, 341)
    ensures !IsUnit(0x409, 1024, 93)
    ensures !IsUnit(0x409, 1024, 33)
  {
    AztecData10Poly();
    AztecData10Powers();
    hide Fits, IsPower, IsUnit, Poly, Size;
    UnitOnlyOne(AZTEC_DATA_10, 1023, 0x1);
    UnitOnlyOne(AZTEC_DATA_10, 341, 0xed);
    UnitOnlyOne(AZTEC_DATA_10, 93, 0x2c9);
    UnitOnlyOne(AZTEC_DATA_10, 33, 0x26c);
  }

  lemma AztecData10Primitive()
    ensures Primitive(0x409, 1024, 10)
  {
    AztecData10Units();
    SmallPowers();
    SmallPrimes();
    hide *;
    var qs := [3, 11, 31];
    NoPrimes(0x409, 1024, 1023, qs);
    OnePrime(0x409, 1024, 1023, qs, 2, 1, 31);
    OnePrime(0x409, 1024, 1023, qs, 1, 31, 11);
    OnePrime(0x409, 1024, 1023, qs, 0, 341, 3);
    CertifiedIsPrimitive(0x409, 10, qs);
  }

  // ----- AztecData6

  const AZTEC_DATA_6 := Ring(0x43, 0x20, 6)

  lemma AztecData6Poly()
    ensures Fits(AZTEC_DATA_6) && Poly(AZTEC_DATA_6) == 0x43 && Size(AZTEC_DATA_6) == 64
  {
    SmallPowers();
    assert Val(0x1, 1) == 0x1;
    assert Val(0x2, 2) == 0x2;
    assert Val(0x4, 3) == 0x4;
    assert Val(0x8, 4) == 0x8;
    assert Val(0x10, 5) == 0x10;
    assert Val(0x21, 6) == 0x21;
    assert Val(0x43, 7) == 0x43;
  }

  lemma AztecData6Powers()
    requires Fits(AZTEC_DATA_6)
    ensures IsPower(AZTEC_DATA_6, 63, 0x1)
    ensures IsPower(AZTEC_DATA_6, 21, 0x3b)
    ensures IsPower(AZTEC_DATA_6, 9, 0x18)
  {
    hide Fits, IsPower;
    var r := AZTEC_DATA_6;
    Alpha(r);
    Times(r, 1, 0x2, 1, 0x2, 0x4);
    Times(r, 2, 0x4, 1, 0x2, 0x8);
    Times(r, 3, 0x8, 3, 0x8, 0x3);
    Times(r, 6, 0x3, 3, 0x8, 0x18);
    Times(r, 6, 0x3, 6, 0x3, 0x5);
    Times(r, 12, 0x5, 9, 0x18, 0x3b);
    Times(r, 21, 0x3b, 21, 0x3b, 0x3a);
    Times(r, 42, 0x3a, 21, 0x3b, 0x1);
  }

  lemma AztecData6Units()
    ensures IsUnit(0x43, 64, 63)
    ensures !IsUnit(0x43, 64, 21)
    ensures !IsUnit(0x43, 64, 9)
  {
    AztecData6Poly();
    AztecData6Powers();
    hide Fits, IsPower, IsUnit, Poly, Size;
    UnitOnlyOne(AZTEC_DATA_6, 63, 0x1);
    UnitOnlyOne(AZTEC_DATA_6, 21, 0x3b);
    UnitOnlyOne(AZTEC_DATA_6, 9, 0x18);
  }

  lemma AztecData6Primitive()
    ensures Primitive(0x43, 64, 6)
  {
    AztecData6Units();
    SmallPowers();
    SmallPrimes();
    hide *;
    var qs := [3, 3, 7];
    NoPrimes(0x43, 64, 63, qs);
    OnePrime(0x43, 64, 63, qs, 2, 1, 7);
    OnePrime(0x43, 64, 63, qs, 1, 7, 3);
    OnePrime(0x43, 64, 63, qs, 0, 21, 3);
    CertifiedIsPrimitive(0x43, 6, qs);
  }

  // ----- AztecParam

  const AZTEC_PARAM := Ring(0x13, 0x8, 4)

  lemma AztecParamPoly()
    ensures Fits(AZTEC_PARAM) && Poly(AZTEC_PARAM) == 0x13 && Size(AZTEC_PARAM) == 16
  {
    SmallPowers();
    assert Val(0x1, 1) == 0x1;
    assert Val(0x2, 2) == 0x2;
    assert Val(0x4, 3) == 0x4;
    assert Val(0x9, 4) == 0x9;
    assert Val(0x13, 5) == 0x13;
  }

  lemma AztecParamPowers()
    requires Fits(AZTEC_PARAM)
    ensures IsPower(AZTEC_PARAM, 15, 0x1)
    ensures IsPower(AZTEC_PARAM, 5, 0x6)
    ensures IsPower(AZTEC_PARAM, 3, 0x8)
  {
    hide Fits, IsPower;
    var r := AZTEC_PARAM;
    Alpha(r);
    Times(r, 1, 0x2, 1, 0x2, 0x4);
    Times(r, 2, 0x4, 1, 0x2, 0x8);
    Times(r, 3, 0x8, 2, 0x4, 0x6);
    Times(r, 5, 0x6, 5, 0x6, 0x7);
    Times(r, 10, 0x7, 5, 0x6, 0x1);
  }

  lemma AztecParamUnits()
    ensures IsUnit(0x13, 16, 15)
    ensures !IsUnit(0x13, 16, 5)
    ensures !IsUnit(0x13, 16, 3)
  {
    AztecParamPoly();
    AztecParamPowers();
    hide Fits, IsPower, IsUnit, Poly, Size;
    UnitOnlyOne(AZTEC_PARAM, 15, 0x1);
    UnitOnlyOne(AZTEC_PARAM, 5, 0x6);
    UnitOnlyOne(AZTEC_PARAM, 3, 0x8);
  }

  lemma AztecParamPrimitive()
    ensures Primitive(0x13, 16, 4)
  {
    AztecParamUnits();
    SmallPowers();
    SmallPrimes();
    hide *;
    var qs := [3, 5];
    NoPrimes(0x13, 16, 15, qs);
    OnePrime(0x13, 16, 15, qs, 1, 1, 5);
    OnePrime(0x13, 16, 15, qs, 0, 5, 3);
    CertifiedIsPrimitive(0x13, 4, qs);
  }

  // ----- QRCodeField256

  const QR_CODE_256 := Ring(0x11d, 0x80, 8)

  lemma QRCodeField256Poly()
    ensures Fits(QR_CODE_256) && Poly(QR_CODE_256) == 0x11d && Size(QR_CODE_256) == 256
  {
    SmallPowers();
    assert Val(0x1, 1) == 0x1;
    assert Val(0x2, 2) == 0x2;
    assert Val(0x4, 3) == 0x4;
    assert Val(0x8, 4) == 0x8;
    assert Val(0x11, 5) == 0x11;
    assert Val(0x23, 6) == 0x23;
    assert Val(0x47, 7) == 0x47;
    assert Val(0x8e, 8) == 0x8e;
    assert Val(0x11d, 9) == 0x11d;
  }

  lemma QRCodeField256Powers()
    requires Fits(QR_CODE_256)
    ensures IsPower(QR_CODE_256, 255, 0x1)
    ensures IsPower(QR_CODE_256, 85, 0xd6)
    ensures IsPower(QR_CODE_256, 51, 0xa)
    ensures IsPower(QR_CODE_256, 15, 0x26)
  {
    hide Fits, IsPower;
    var r := QR_CODE_256;
    Alpha(r);
    Times(r, 1, 0x2, 1, 0x2, 0x4);
    Times(r, 2, 0x4, 1, 0x2, 0x8);
    Times(r, 3, 0x8, 3, 0x8, 0x40);
    Times(r, 6, 0x40, 6, 0x40, 0xcd);
    Times(r, 12, 0xcd, 3, 0x8, 0x26);
    Times(r, 15, 0x26, 2, 0x4, 0x98);
    Times(r, 17, 0x98, 17, 0x98, 0x4e);
    Times(r, 34, 0x4e, 17, 0x98, 0xa);
    Times(r, 51, 0xa, 34, 0x4e, 0xd6);
    Times(r, 85, 0xd6, 85, 0xd6, 0xd7);
    Times(r, 170, 0xd7, 85, 0xd6, 0x1);
  }

  lemma QRCodeField256Units()
    ensures IsUnit(0x11d, 256, 255)
    ensures !IsUnit(0x11d, 256, 85)
    ensures !IsUnit(0x11d, 256, 51)
    ensures !IsUnit(0x11d, 256, 15)
  {
    QRCodeField256Poly();
    QRCodeField256Powers();
    hide Fits, IsPower, IsUnit, Poly, Size;
    UnitOnlyOne(QR_CODE_256, 255, 0x1);
    UnitOnlyOne(QR_CODE_256, 85, 0xd6);
    UnitOnlyOne(QR_CODE_256, 51, 0xa);
    UnitOnlyOne(QR_CODE_256, 15, 0x26);
  }

  lemma QRCodeField256Primitive()
    ensures Primitive(0x11d, 256, 8)
  {
    QRCodeField256Units();
    SmallPowers();
    SmallPrimes();
    hide *;
    var qs := [3, 5, 17];
    NoPrimes(0x11d, 256, 255, qs);
    OnePrime(0x11d, 256, 255, qs, 2, 1, 17);
    OnePrime(0x11d, 256, 255, qs, 1, 17, 5);
    OnePrime(0x11d, 256, 255, qs, 0, 85, 3);
    CertifiedIsPrimitive(0x11d, 8, qs);
  }

  // ----- DataMatrixField256

  const DATA_MATRIX_256 := Ring(0x12d, 0x80, 8)

  lemma DataMatrixField256Poly()
    ensures Fits(DATA_MATRIX_256) && Poly(DATA_MATRIX_256) == 0x12d && Size(DATA_MATRIX_256) == 256
  {
    SmallPowers();
    assert Val(0x1, 1) == 0x1;
    assert Val(0x2, 2) == 0x2;
    assert Val(0x4, 3) == 0x4;
    assert Val(0x9, 4) == 0x9;
    assert Val(0x12, 5) == 0x12;
    assert Val(0x25, 6) == 0x25;
    assert Val(0x4b, 7) == 0x4b;
    assert Val(0x96, 8) == 0x96;
    assert Val(0x12d, 9) == 0x12d;
  }

  lemma DataMatrixField256Powers()
    requires Fits(DATA_MATRIX_256)
    ensures IsPower(DATA_MATRIX_256, 255, 0x1)
    ensures IsPower(DATA_MATRIX_256, 85, 0xbe)
    ensures IsPower(DATA_MATRIX_256, 51, 0xdc)
    ensures IsPower(DATA_MATRIX_256, 15, 0xe4)
  {
    hide Fits, IsPower;
    var r := DATA_MATRIX_256;
    Alpha(r);
    Times(r, 1, 0x2, 1, 0x2, 0x4);
    Times(r, 2, 0x4, 1, 0x2, 0x8);
    Times(r, 3, 0x8, 3, 0x8, 0x40);
    Times(r, 6, 0x40, 6, 0x40, 0x8a);
    Times(r, 12, 0x8a, 3, 0x8, 0xe4);
    Times(r, 15, 0xe4, 2, 0x4, 0xe7);
    Times(r, 17, 0xe7, 17, 0xe7, 0x59);
    Times(r, 34, 0x59, 17, 0xe7, 0xdc);
    Times(r, 51, 0xdc, 34, 0x59, 0xbe);
    Times(r, 85, 0xbe, 85, 0xbe, 0xbf);
    Times(r, 170, 0xbf, 85, 0xbe, 0x1);
  }

  lemma DataMatrixField256Units()
    ensures IsUnit(0x12d, 256, 255)
    ensures !IsUnit(0x12d, 256, 85)
    ensures !IsUnit(0x12d, 256, 51)
    ensures !IsUnit(0x12d, 256, 15)
  {
    DataMatrixField256Poly();
    DataMatrixField256Powers();
    hide Fits, IsPower, IsUnit, Poly, Size;
    UnitOnlyOne(DATA_MATRIX_256, 255, 0x1);
    UnitOnlyOne(DATA_MATRIX_256, 85, 0xbe);
    UnitOnlyOne(DATA_MATRIX_256, 51, 0xdc);
    UnitOnlyOne(DATA_MATRIX_256, 15, 0xe4);
  }

  lemma DataMatrixField256Primitive()
    ensures Primitive(0x12d, 256, 8)
  {
    DataMatrixField256Units();
    SmallPowers();
    SmallPrimes();
    hide *;
    var qs := [3, 5, 17];
    NoPrimes(0x12d, 256, 255, qs);
    OnePrime(0x12d, 256, 255, qs, 2, 1, 17);
    OnePrime(0x12d, 256, 255, qs, 1, 17, 5);
    OnePrime(0x12d, 256, 255, qs, 0, 85, 3);
    CertifiedIsPrimitive(0x12d, 8, qs);
  }

  // ----- the static instances

  method AztecData12() returns (f: GF)
    ensures IsField(f) && f.size == 4096 && f.generatorBase == 1 && BuiltFrom(f, 0x1069)
  {
    hide Primitive, BuiltFrom, IsField;
    SmallPowers();
    AztecData12Primitive();
    f := MakeGF(0x1069, 4096, 1, 12);
  }

  method AztecData10() returns (f: GF)
    ensures IsField(f) && f.size == 1024 && f.generatorBase == 1 && BuiltFrom(f, 0x409)
  {
    hide Primitive, BuiltFrom, IsField;
    SmallPowers();
    AztecData10Primitive();
    f := MakeGF(0x409, 1024, 1, 10);
  }

  method AztecData6() returns (f: GF)
    ensures IsField(f) && f.size == 64 && f.generatorBase == 1 && BuiltFrom(f, 0x43)
  {
    hide Primitive, BuiltFrom, IsField;
    SmallPowers();
    AztecData6Primitive();
    f := MakeGF(0x43, 64, 1, 6);
  }

  method AztecParam() returns (f: GF)
    ensures IsField(f) && f.size == 16 && f.generatorBase == 1 && BuiltFrom(f, 0x13)
  {
    hide Primitive, BuiltFrom, IsField;
    SmallPowers();
    AztecParamPrimitive();
    f := MakeGF(0x13, 16, 1, 4);
  }

  method QRCodeField256() returns (f: GF)
    ensures IsField(f) && f.size == 256 && f.generatorBase == 0 && BuiltFrom(f, 0x11d)
  {
    hide Primitive, BuiltFrom, IsField;
    SmallPowers();
    QRCodeField256Primitive();
    f := MakeGF(0x11d, 256, 0, 8);
  }

  method DataMatrixField256() returns (f: GF)
    ensures IsField(f) && f.size == 256 && f.generatorBase == 1 && BuiltFrom(f, 0x12d)
  {
    hide Primitive, BuiltFrom, IsField;
    SmallPowers();
    DataMatrixField256Primitive();
    f := MakeGF(0x12d, 256, 1, 8);
  }

  method AztecData8() returns (f: GF)
    ensures IsField(f) && f.size == 256 && f.generatorBase == 1 && BuiltFrom(f, 0x12d)
  {
    hide Primitive, BuiltFrom, IsField;
    SmallPowers();
    DataMatrixField256Primitive();
    f := MakeGF(0x12d, 256, 1, 8);
  }

  method MaxiCodeField64() returns (f: GF)
    ensures IsField(f) && f.size == 64 && f.generatorBase == 1 && BuiltFrom(f, 0x43)
  {
    hide Primitive, BuiltFrom, IsField;
    SmallPowers();
    AztecData6Primitive();
    f := MakeGF(0x43, 64, 1, 6);
  }

  const AZTEC_WORD_SIZES: set<nat> := {4, 6, 8, 10, 12}

  /** GetGFFromWordSize; it throws for any other size. */
  method GetGFFromWordSize(wordSize: nat) returns (f: GF)
    requires wordSize in AZTEC_WORD_SIZES
    ensures IsField(f) && f.size == Pow2(wordSize) && f.generatorBase == 1
  {
    SmallPowers();
    hide IsField, BuiltFrom, Pow2;
    if wordSize == 4 {
      f := AztecParam();
    } else if wordSize == 6 {
      f := AztecData6();
    } else if wordSize == 8 {
      f := AztecData8();
    } else if wordSize == 10 {
      f := AztecData10();
    } else {
      f := AztecData12();
    }
  }
}
