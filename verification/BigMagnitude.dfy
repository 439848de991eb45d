// Arithmetic on block vectors written in place (zxing-core/src/ZXBigInteger.cpp:22-343). An output may be the
// same vector object as an input wherever the source allows it.
module BigMagnitude {
  import opened BitOps
  import opened BlockAlgebra

  /** A std::vector<Block>. */
  class Magnitude {
    var blocks: Blocks

    constructor (b: Blocks)
      ensures blocks == b
    {
      blocks := b;
    }

    /** std::vector::resize: cut off, or pad with zeros. */
    method Resize(n: nat)
      modifies this
      ensures |blocks| == n
      ensures n >= |old(blocks)| ==> blocks[..|old(blocks)|] == old(blocks)
    {
      if n <= |blocks| {
        blocks := blocks[..n];
      } else {
        blocks := blocks + seq(n - |blocks|, _ => 0);
      }
    }
  }

  /** Unsigned 64-bit addition and subtraction. */
  function WrapAdd(x: Block, y: Block): (r: Block)
    ensures r == if x + y >= BASE then x + y - BASE else x + y
  {
    (x + y) % BASE
  }

  function WrapSub(x: Block, y: Block): (r: Block)
    ensures r == if x < y then x - y + BASE else x - y
  {
    (x - y) % BASE
  }

  ghost predicate SumDigit(x: Block, y: Block, carry: bool, digit: Block, carry': bool) {
    x + y + Bit(carry) == digit + BASE * Bit(carry')
  }

  ghost predicate DiffDigit(x: Block, y: Block, borrow: bool, digit: Block, borrow': bool) {
    x - y - Bit(borrow) == digit - BASE * Bit(borrow')
  }

  /** One block of an addition (lines 37 to 44 and again 161 to 168): the carry is read off the wrap-around. */
  method AddBlocks(x: Block, y: Block, carryIn: bool) returns (temp: Block, carryOut: bool)
    ensures SumDigit(x, y, carryIn, temp, carryOut)
  {
    temp := WrapAdd(x, y);
    carryOut := temp < x;
    if carryIn {
      temp := WrapAdd(temp, 1);
      carryOut := carryOut || temp == 0;
    }
  }

  /** One block of a subtraction (lines 77 to 85 and again 295 to 303). */
  method SubBlocks(x: Block, y: Block, borrowIn: bool) returns (temp: Block, borrowOut: bool)
    ensures DiffDigit(x, y, borrowIn, temp, borrowOut)
  {
    temp := WrapSub(x, y);
    borrowOut := temp > x;
    if borrowIn {
      borrowOut := borrowOut || temp == 0;
      temp := WrapSub(temp, 1);
    }
  }

  ghost function From(m: Blocks, i: nat): Blocks {
    if i <= |m| then m[i..] else []
  }

  /** The first i blocks of the sum of a and b are written, and `carry` goes into block i. */
  ghost predicate Summing(a: Blocks, b: Blocks, s: Blocks, i: nat, carry: bool) {
    && |a| >= |b| && i <= |a| <= |s|
    && s[..i] + Sum(a[i..], From(b, i), carry) == Sum(a, b, false)
  }

  lemma SummingStart(a: Blocks, b: Blocks, s: Blocks)
    requires |s| >= |a| >= |b|
    ensures Summing(a, b, s, 0, false)
  {
    assert a[0..] == a && From(b, 0) == b;
  }

  lemma SumUnfold(a: Blocks, b: Blocks, i: nat, carry: bool, digit: Block, carry': bool)
    requires i < |a| && |b| <= |a|
    requires SumDigit(a[i], Head(From(b, i)), carry, digit, carry')
    ensures Sum(a[i..], From(b, i), carry) == [digit] + Sum(a[i + 1..], From(b, i + 1), carry')
  {
    var tail, rest := a[i..], From(b, i);
    assert tail[1..] == a[i + 1..] && tail[0] == a[i];
    assert Tail(rest) == From(b, i + 1);
    hide From, Head, Tail, Bit;
  }

  lemma Overwritten(s: Blocks, i: nat, digit: Block, rest: Blocks)
    requires i < |s|
    ensures s[i := digit][..i + 1] + rest == s[..i] + ([digit] + rest)
  {
  }

  lemma SummingStep(a: Blocks, b: Blocks, s: Blocks, i: nat, carry: bool, digit: Block, carry': bool)
    requires Summing(a, b, s, i, carry) && i < |a|
    requires SumDigit(a[i], Head(From(b, i)), carry, digit, carry')
    ensures Summing(a, b, s[i := digit], i + 1, carry')
  {
    hide Sum;
    SumUnfold(a, b, i, carry, digit, carry');
    Overwritten(s, i, digit, Sum(a[i + 1..], From(b, i + 1), carry'));
  }

  lemma SummingEnd(a: Blocks, b: Blocks, s: Blocks, carry: bool)
    requires Summing(a, b, s, |a|, carry)
    ensures Sum(a, b, false) == s[..|a|] + (if carry then [1] else [])
  {
    assert a[|a|..] == [] && From(b, |a|) == [];
  }

  /** The first i blocks of the difference of a and b are written, and `borrow` goes into block i. */
  ghost predicate Subtracting(a: Blocks, b: Blocks, s: Blocks, i: nat, borrow: bool) {
    && |a| >= |b| && i <= |a| <= |s|
    && s[..i] + Diff(a[i..], From(b, i), borrow).0 == Diff(a, b, false).0
    && Diff(a[i..], From(b, i), borrow).1 == Diff(a, b, false).1
  }

  lemma SubtractingStart(a: Blocks, b: Blocks, s: Blocks)
    requires |s| >= |a| >= |b|
    ensures Subtracting(a, b, s, 0, false)
  {
    assert a[0..] == a && From(b, 0) == b;
  }

  lemma DiffUnfold(a: Blocks, b: Blocks, i: nat, borrow: bool, digit: Block, borrow': bool)
    requires i < |a| && |b| <= |a|
    requires DiffDigit(a[i], Head(From(b, i)), borrow, digit, borrow')
    ensures var rest := Diff(a[i + 1..], From(b, i + 1), borrow');
      Diff(a[i..], From(b, i), borrow) == ([digit] + rest.0, rest.1)
  {
    var tail, rest := a[i..], From(b, i);
    assert tail[1..] == a[i + 1..] && tail[0] == a[i];
    assert Tail(rest) == From(b, i + 1);
    hide From, Head, Tail, Bit;
  }

  lemma SubtractingStep(a: Blocks, b: Blocks, s: Blocks, i: nat, borrow: bool, digit: Block, borrow': bool)
    requires Subtracting(a, b, s, i, borrow) && i < |a|
    requires DiffDigit(a[i], Head(From(b, i)), borrow, digit, borrow')
    ensures Subtracting(a, b, s[i := digit], i + 1, borrow')
  {
    hide Diff;
    DiffUnfold(a, b, i, borrow, digit, borrow');
    Overwritten(s, i, digit, Diff(a[i + 1..], From(b, i + 1), borrow').0);
  }

  lemma SubtractingEnd(a: Blocks, b: Blocks, s: Blocks, borrow: bool)
    requires Subtracting(a, b, s, |a|, borrow)
    ensures Diff(a, b, false) == (s[..|a|], borrow)
  {
    assert a[|a|..] == [] && From(b, |a|) == [];
    assert s[..|a|] + [] == s[..|a|];
  }

  /** Once the borrow is gone the rest of the minuend is the rest of the difference. */
  lemma SubtractingRest(a: Blocks, b: Blocks, s: Blocks, i: nat)
    requires Subtracting(a, b, s, i, false) && i >= |b|
    ensures Diff(a, b, false) == (s[..i] + a[i..], false)
  {
    assert From(b, i) == [];
    DiffNothing(a[i..]);
  }

  /** The part of an input that is still to be read is unchanged, even if the output overlays it. */
  ghost predicate Kept(original: Blocks, m: Magnitude, i: nat)
    reads m
  {
    |original| <= |m.blocks| && forall k :: i <= k < |original| ==> m.blocks[k] == original[k]
  }

  ghost function SumOf(a: Blocks, b: Blocks): Blocks {
    if |a| >= |b| then Sum(a, b, false) else Sum(b, a, false)
  }

  /** Lines 47 to 55: the rest of the longer input, with the carry for as long as there is one. */
  method CarryThrough(a2: Magnitude, c: Magnitude, ghost A: Blocks, ghost B: Blocks, start: nat, a2Size: nat,
                      carry: bool)
    returns (carryIn: bool)
    requires |B| <= start <= |A| == a2Size && Kept(A, a2, start)
    requires |c.blocks| == a2Size + 1 && Summing(A, B, c.blocks, start, carry)
    modifies c
    ensures |c.blocks| == a2Size + 1 && Summing(A, B, c.blocks, a2Size, carryIn)
  {
    hide Summing;
    var i := start;
    carryIn := carry;
    while i < a2Size && carryIn
      invariant start <= i <= a2Size
      invariant Kept(A, a2, i)
      invariant |c.blocks| == a2Size + 1 && Summing(A, B, c.blocks, i, carryIn)
    {
      var temp := WrapAdd(a2.blocks[i], 1);
      SummingStep(A, B, c.blocks, i, true, temp, temp == 0);
      carryIn := temp == 0;
      c.blocks := c.blocks[i := temp];
      i := i + 1;
    }
    while i < a2Size
      invariant start <= i <= a2Size
      invariant carryIn ==> i == a2Size
      invariant Kept(A, a2, i)
      invariant |c.blocks| == a2Size + 1 && Summing(A, B, c.blocks, i, carryIn)
    {
      var temp := a2.blocks[i];
      SummingStep(A, B, c.blocks, i, false, temp, false);
      c.blocks := c.blocks[i := temp];
      i := i + 1;
    }
  }

  /** AddMag: c = a + b, where c may be a or b. */
  method AddMag(a: Magnitude, b: Magnitude, c: Magnitude)
    modifies c
    ensures Value(c.blocks) == Value(old(a.blocks)) + Value(old(b.blocks))
    ensures Normal(old(a.blocks)) && Normal(old(b.blocks)) ==> Normal(c.blocks)
    ensures c.blocks == SumOf(old(a.blocks), old(b.blocks))
    ensures |old(a.blocks)| <= |c.blocks| && |old(b.blocks)| <= |c.blocks|
    ensures |c.blocks| <= (if |old(a.blocks)| >= |old(b.blocks)| then |old(a.blocks)| else |old(b.blocks)|) + 1
  {
    hide Value, Sum, Summing;
    var a2 := if |a.blocks| >= |b.blocks| then a else b;
    var b2 := if |a.blocks| >= |b.blocks| then b else a;
    ghost var A, B := a2.blocks, b2.blocks;
    var a2Size, b2Size := |a2.blocks|, |b2.blocks|;
    c.Resize(a2Size + 1);
    var i := 0;
    var carryIn := false;
    SummingStart(A, B, c.blocks);
    while i < b2Size
      invariant i <= b2Size
      invariant Kept(A, a2, i) && Kept(B, b2, i)
      invariant |c.blocks| == a2Size + 1 && Summing(A, B, c.blocks, i, carryIn)
    {
      var temp, carryOut := AddBlocks(a2.blocks[i], b2.blocks[i], carryIn);
      SummingStep(A, B, c.blocks, i, carryIn, temp, carryOut);
      c.blocks := c.blocks[i := temp];
      carryIn := carryOut;
      i := i + 1;
    }
    carryIn := CarryThrough(a2, c, A, B, i, a2Size, carryIn);
    i := a2Size;
    SummingEnd(A, B, c.blocks, carryIn);
    SumFacts(A, B);
    if carryIn {
      c.blocks := c.blocks[i := 1];
    } else {
      c.blocks := c.blocks[..|c.blocks| - 1];
    }
    assert c.blocks == Sum(A, B, false);
  }

  lemma SumFacts(a: Blocks, b: Blocks)
    requires |a| >= |b|
    ensures Value(Sum(a, b, false)) == Value(a) + Value(b)
    ensures Normal(a) ==> Normal(Sum(a, b, false))
    ensures |a| <= |Sum(a, b, false)| <= |a| + 1
  {
    SumValue(a, b, false);
    SumLength(a, b, false);
    if Normal(a) {
      SumNormal(a, b, false);
    }
  }

  /** SubMag: c = a - b for a >= b, where c may be a or b; the result has no leading zeros. */
  method SubMag(a: Magnitude, b: Magnitude, c: Magnitude)
    requires |a.blocks| >= |b.blocks| && Value(a.blocks) >= Value(b.blocks)
    modifies c
    ensures Value(c.blocks) == Value(old(a.blocks)) - Value(old(b.blocks))
    ensures Normal(c.blocks)
  {
    hide Value, Diff, Power, Subtracting;
    ghost var A, B := a.blocks, b.blocks;
    var aSize, bSize := |a.blocks|, |b.blocks|;
    c.Resize(aSize);
    var i := 0;
    var borrowIn := false;
    SubtractingStart(A, B, c.blocks);
    while i < bSize
      invariant i <= bSize
      invariant Kept(A, a, i) && Kept(B, b, i)
      invariant |c.blocks| == aSize && Subtracting(A, B, c.blocks, i, borrowIn)
    {
      var temp, borrowOut := SubBlocks(a.blocks[i], b.blocks[i], borrowIn);
      SubtractingStep(A, B, c.blocks, i, borrowIn, temp, borrowOut);
      c.blocks := c.blocks[i := temp];
      borrowIn := borrowOut;
      i := i + 1;
    }
    while i < aSize && borrowIn
      invariant bSize <= i <= aSize
      invariant Kept(A, a, i)
      invariant |c.blocks| == aSize && Subtracting(A, B, c.blocks, i, borrowIn)
    {
      var x := a.blocks[i];
      SubtractingStep(A, B, c.blocks, i, true, WrapSub(x, 1), x == 0);
      borrowIn := x == 0;
      c.blocks := c.blocks[i := WrapSub(x, 1)];
      i := i + 1;
    }
    while i < aSize
      invariant bSize <= i <= aSize
      invariant borrowIn ==> i == aSize
      invariant Kept(A, a, i)
      invariant |c.blocks| == aSize && Subtracting(A, B, c.blocks, i, borrowIn)
    {
      SubtractingStep(A, B, c.blocks, i, false, a.blocks[i], false);
      c.blocks := c.blocks[i := a.blocks[i]];
      i := i + 1;
    }
    SubtractingEnd(A, B, c.blocks, borrowIn);
    assert c.blocks[..aSize] == c.blocks;
    DiffBorrow(A, B);
    DiffValue(A, B, false);
    ZapLeadingZeros(c);
  }

  /** Pops zero blocks off the top. */
  method ZapLeadingZeros(c: Magnitude)
    modifies c
    ensures c.blocks == Trim(old(c.blocks))
    ensures Value(c.blocks) == Value(old(c.blocks))
    ensures Normal(c.blocks)
  {
    hide Value;
    while |c.blocks| > 0 && c.blocks[|c.blocks| - 1] == 0
      invariant Trim(c.blocks) == Trim(old(c.blocks))
      decreases |c.blocks|
    {
      c.blocks := c.blocks[..|c.blocks| - 1];
    }
    TrimValue(old(c.blocks));
  }
}
