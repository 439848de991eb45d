// FLG(n) in front of the Aztec decoder (zxing-core/src/aztec/AZDecoder.cpp:208-217 and 279-290; section 10.1 of
// ISO/IEC 24778:2008): the switch to another character set, FNC1, and the flag that means nothing. The encoder never
// writes them.
module AztecFlags {
  import opened Sequences
  import opened BitOps
  import opened BitStream
  import opened BitOutput
  import opened BitArrays
  import opened AztecDecoder
  import opened AztecCodes

  /** In front of any further bits, these bits take the decoder from a table to itself, producing these items. */
  ghost predicate Yields(b: Bits, t: Table, out: seq<Item>) {
    forall total: nat, rest: Bits, items: seq<Item> :: total >= |b| + |rest| ==>
      DecodeFrom(total, b + rest, State(t, t, items)) == DecodeFrom(total, rest, State(t, t, items + out))
  }

  /** A shift to PUNCT where it is needed, FLG(n), and the three bits of n. */
  function FlagBits(t: Table, n: nat): Bits {
    (if t == PUNCT then [] else MsbBits(0, Width(t))) + (MsbBits(0, 5) + MsbBits(n, 3))
  }

  function Power10(n: nat): (p: nat)
    ensures p > 0
  {
    if n == 0 then 1 else 10 * Power10(n - 1)
  }

  /** The n decimal digits of v, each written in four bits as the digit plus two. */
  function DigitBits(v: nat, n: nat): Bits
    decreases n
  {
    if n == 0 then []
    else MsbBits(v / Power10(n - 1) + 2, 4) + DigitBits(v % Power10(n - 1), n - 1)
  }

  lemma TopDigit(v: nat, n: nat)
    requires n > 0 && v < Power10(n)
    ensures var p := Power10(n - 1); v / p < 10 && v % p < p && v == v / p * p + v % p
  {
    var p := Power10(n - 1);
    var q := v / p;
    if q >= 10 {
      MulMonotone(10, q, p);
      assert false;
    }
  }

  /** The loop over the digits reads the number. */
  lemma {:induction false} DigitsRead(total: nat, v: nat, n: nat, rest: Bits, s: State, eci: int)
    requires v < Power10(n) && total >= |DigitBits(v, n)| + |rest|
    ensures TakeEci(total, n, DigitBits(v, n) + rest, s, eci) ==
            Next(s.(shift := s.latch, items := s.items + [Eci(eci * Power10(n) + v)]), rest)
    decreases n
  {
    hide MsbBits, Take, Power10;
    if n == 0 {
      NoDigits(eci);
      assert DigitBits(v, 0) + rest == rest;
    } else {
      var p := Power10(n - 1);
      TopDigit(v, n);
      var d, tail := v / p, DigitBits(v % p, n - 1);
      SmallPowers();
      Reassociate(MsbBits(d + 2, 4), tail, rest);
      TakeBits(total, d + 2, 4, tail + rest);
      DigitsRead(total, v % p, n - 1, rest, s, 10 * eci + d);
      NextPower(n);
      DigitWeights(eci, d, p, v % p);
    }
  }

  lemma NoDigits(eci: int)
    ensures Power10(0) == 1 && eci * 1 == eci
  {
  }

  lemma NextPower(n: nat)
    requires n > 0
    ensures Power10(n) == 10 * Power10(n - 1)
  {
  }

  lemma DigitWeights(eci: int, d: nat, p: nat, low: nat)
    ensures (10 * eci + d) * p + low == eci * (10 * p) + (d * p + low)
  {
    assert (10 * eci + d) * p == 10 * eci * p + d * p;
    assert 10 * eci * p == eci * (10 * p);
  }

  lemma PunctShift(t: Table)
    requires t != BINARY && t != PUNCT
    ensures Moves(MsbBits(0, Width(t)), In(t), (t, PUNCT), [])
  {
    hide Moves, MsbBits;
    OneCode(t, t, 0);
  }

  /** What follows FLG(n) is one step of the decoder. */
  lemma FlagRead(total: nat, t: Table, n: nat, tail: Bits, items: seq<Item>)
    requires t != BINARY && n < 8 && total >= |FlagBits(t, n)| + |tail|
    ensures DecodeFrom(total, FlagBits(t, n) + tail, State(t, t, items)) ==
            AfterRound(total, FlgRound(total, MsbBits(n, 3) + tail, State(t, PUNCT, items)))
  {
    hide MsbBits, DecodeFrom, Moves, FlgRound;
    var flg := MsbBits(0, 5) + (MsbBits(n, 3) + tail);
    Reassociate(MsbBits(0, 5), MsbBits(n, 3), tail);
    if t == PUNCT {
      assert FlagBits(t, n) + tail == flg;
    } else {
      Reassociate(MsbBits(0, Width(t)), MsbBits(0, 5) + MsbBits(n, 3), tail);
      PunctShift(t);
      MovesUse(MsbBits(0, Width(t)), In(t), (t, PUNCT), [], total, flg, items);
      assert items + Chars([]) == items;
    }
    FlagStep(total, t, MsbBits(n, 3) + tail, items);
  }

  /** How the decoder goes on after a round. */
  function AfterRound(total: nat, r: Round): Outcome {
    match r
    case Next(s, rest) => DecodeFrom(total, rest, s)
    case RoundThrew => Threw
    case RoundOverran => Overran
  }

  lemma FlagStep(total: nat, t: Table, tail: Bits, items: seq<Item>)
    requires t != BINARY && total >= 5 + |tail|
    ensures DecodeFrom(total, MsbBits(0, 5) + tail, State(t, PUNCT, items)) ==
            AfterRound(total, FlgRound(total, tail, State(t, PUNCT, items)))
  {
    hide MsbBits, FlgRound;
    SmallPowers();
    TakeBits(total, 0, 5, tail);
    assert GetCharacter(PUNCT, 0) == Flgn;
  }

  lemma FlagTaken(total: nat, n: nat, tail: Bits, s: State)
    requires n < 8 && total >= 3 + |tail|
    ensures FlgRound(total, MsbBits(n, 3) + tail, s) ==
            if n == 0 then Next(s.(shift := s.latch, items := s.items + [Char(29)]), tail)
            else if n <= 6 then TakeEci(total, n, tail, s, 0)
            else Next(s.(shift := s.latch), tail)
  {
    hide MsbBits, Take, TakeEci;
    SmallPowers();
    TakeBits(total, n, 3, tail);
  }

  lemma FlagLength(t: Table, n: nat)
    ensures |FlagBits(t, n)| >= 8
  {
    hide MsbBits;
  }

  /** FLG(1) to FLG(6): the n digits of any number below 10^n switch to the character set of that number. */
  lemma EciYields(t: Table, n: nat, v: nat)
    requires t != BINARY && 1 <= n <= 6 && v < Power10(n)
    ensures Yields(FlagBits(t, n) + DigitBits(v, n), t, [Eci(v)])
  {
    hide FlagBits, DigitBits, DecodeFrom, FlgRound, Power10, TakeEci;
    var b := FlagBits(t, n) + DigitBits(v, n);
    forall total: nat, rest: Bits, items: seq<Item> | total >= |b| + |rest|
      ensures DecodeFrom(total, b + rest, State(t, t, items)) == DecodeFrom(total, rest, State(t, t, items + [Eci(v)]))
    {
      FlagLength(t, n);
      Reassociate(FlagBits(t, n), DigitBits(v, n), rest);
      FlagRead(total, t, n, DigitBits(v, n) + rest, items);
      FlagTaken(total, n, DigitBits(v, n) + rest, State(t, PUNCT, items));
      DigitsRead(total, v, n, rest, State(t, PUNCT, items), 0);
    }
  }

  /** FLG(0) is FNC1, byte 29. */
  lemma Fnc1Yields(t: Table)
    requires t != BINARY
    ensures Yields(FlagBits(t, 0), t, [Char(29)])
  {
    hide FlagBits, DecodeFrom, FlgRound;
    var b := FlagBits(t, 0);
    forall total: nat, rest: Bits, items: seq<Item> | total >= |b| + |rest|
      ensures DecodeFrom(total, b + rest, State(t, t, items)) ==
              DecodeFrom(total, rest, State(t, t, items + [Char(29)]))
    {
      FlagLength(t, 0);
      FlagRead(total, t, 0, rest, items);
      FlagTaken(total, 0, rest, State(t, PUNCT, items));
    }
  }

  /** FLG(7) is skipped. */
  lemma InvalidYields(t: Table)
    requires t != BINARY
    ensures Yields(FlagBits(t, 7), t, [])
  {
    hide FlagBits, DecodeFrom, FlgRound;
    var b := FlagBits(t, 7);
    forall total: nat, rest: Bits, items: seq<Item> | total >= |b| + |rest|
      ensures DecodeFrom(total, b + rest, State(t, t, items)) == DecodeFrom(total, rest, State(t, t, items + []))
    {
      FlagLength(t, 7);
      FlagRead(total, t, 7, rest, items);
      FlagTaken(total, 7, rest, State(t, PUNCT, items));
      assert items + [] == items;
    }
  }
}
