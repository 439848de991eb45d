// Shifted operands and bit tests for the shift-and-add product and the shift-and-subtract quotient
// (zxing-core/src/ZXBigInteger.cpp:106-111).
module BlockShift {
  import opened BitOps
  import opened BlockAlgebra

  lemma BaseIsPow2()
    ensures BASE == Pow2(NB_BITS)
  {
    hide Pow2;
    Pow2Add(32, 32);
    Pow2Add(16, 16);
    Pow2Add(8, 8);
    SmallPowers();
  }

  lemma OrBlock(x: Block, y: Block)
    ensures Or(x, y) < BASE
  {
    BaseIsPow2();
    OrBound(x, y, NB_BITS);
  }

  /** The shift operators on a block. */
  function ShiftLeft(x: Block, y: nat): Block {
    x * Pow2(y) % BASE
  }

  function ShiftRight(x: Block, y: nat): Block {
    DivBound(x, Pow2(y));
    x / Pow2(y)
  }

  /** Block x of num shifted left by y bits. */
  function GetShiftedBlock(num: Blocks, x: nat, y: nat): Block
    requires x <= |num| && y < NB_BITS
  {
    var part1 := if x == 0 || y == 0 then 0 else ShiftRight(num[x - 1], NB_BITS - y);
    var part2 := if x == |num| then 0 else ShiftLeft(num[x], y);
    OrBlock(part1, part2);
    Or(part1, part2)
  }

  /** A block times 2^y splits into what stays in the block and what moves to the next. */
  lemma ShiftParts(x: Block, y: nat, low: nat)
    requires y < NB_BITS && low < Pow2(y)
    ensures ShiftLeft(x, y) == x % Pow2(NB_BITS - y) * Pow2(y)
    ensures ShiftRight(x, NB_BITS - y) < Pow2(y)
    ensures x * Pow2(y) == ShiftLeft(x, y) + BASE * ShiftRight(x, NB_BITS - y)
    ensures low + ShiftLeft(x, y) < BASE
  {
    hide Pow2;
    BaseIsPow2();
    Pow2Add(y, NB_BITS - y);
    SplitProduct(x, Pow2(y), Pow2(NB_BITS - y), low);
    DivMod(x * Pow2(y), BASE);
  }

  /** The blocks of b * 2^y + low, one more than b has. */
  ghost function Shifted(b: Blocks, y: nat, low: nat): (r: Blocks)
    requires y < NB_BITS && low < Pow2(y)
    ensures |r| == |b| + 1
  {
    if |b| == 0 then
      ShiftParts(0, y, low);
      [low]
    else
      ShiftParts(b[0], y, low);
      [low + ShiftLeft(b[0], y)] + Shifted(b[1..], y, ShiftRight(b[0], NB_BITS - y))
  }

  lemma {:induction false} ShiftedValue(b: Blocks, y: nat, low: nat)
    requires y < NB_BITS && low < Pow2(y)
    ensures Value(Shifted(b, y, low)) == Value(b) * Pow2(y) + low
    decreases |b|
  {
    hide Value, Pow2, ShiftLeft, ShiftRight;
    ShiftParts(0, y, low);
    if |b| == 0 {
      OneBlock(low);
      HeadTail(b);
      ValueNothing();
    } else {
      ShiftParts(b[0], y, low);
      var moved := ShiftRight(b[0], NB_BITS - y);
      ShiftedValue(b[1..], y, moved);
      ValueCons(low + ShiftLeft(b[0], y), Shifted(b[1..], y, moved));
      HeadTail(b);
      ScaledSum(b[0], Value(b[1..]), Pow2(y));
    }
  }

  lemma ValueNothing()
    ensures Value([]) == 0
  {
  }

  lemma ScaledSum(x: int, v: int, p: int)
    ensures (x + BASE * v) * p == x * p + BASE * (v * p)
  {
    Distribute(x, BASE * v, p);
    MulAssoc3(BASE, v, p);
  }

  /** GetShiftedBlock reads the blocks of the shifted number. */
  lemma {:induction false} ShiftedBlockIs(b: Blocks, y: nat, low: nat, x: nat)
    requires y < NB_BITS && low < Pow2(y) && x <= |b|
    ensures Shifted(b, y, low)[x] ==
            (if x == 0 then low else ShiftRight(b[x - 1], NB_BITS - y)) +
            (if x == |b| then 0 else ShiftLeft(b[x], y))
    decreases |b|
  {
    hide Pow2, ShiftLeft, ShiftRight;
    if x > 0 {
      ShiftParts(b[0], y, low);
      ShiftedBlockIs(b[1..], y, ShiftRight(b[0], NB_BITS - y), x - 1);
    }
  }

  lemma ShiftedBlock(b: Blocks, x: nat, y: nat)
    requires x <= |b| && y < NB_BITS
    ensures GetShiftedBlock(b, x, y) == Shifted(b, y, 0)[x]
  {
    hide Pow2, ShiftLeft, ShiftRight, Or, Shifted;
    ShiftedBlockIs(b, y, 0, x);
    var part1 := if x == 0 || y == 0 then 0 else ShiftRight(b[x - 1], NB_BITS - y);
    if x > 0 {
      ShiftParts(b[x - 1], y, 0);
      if y == 0 {
        Pow2Zero();
      }
    }
    var high := if x == |b| then 0 else b[x] % Pow2(NB_BITS - y);
    if x < |b| {
      ShiftParts(b[x], y, 0);
    }
    OrDisjoint(part1, high, y);
  }
}
