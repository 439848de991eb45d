// What codes, latches, shifts and binary runs mean to the Aztec decoder.
module AztecCodes {
  import opened Sequences
  import opened BitOps
  import opened BitStream
  import opened BitOutput
  import opened CanonicalCode
  import opened BitArrays
  import opened AztecDecoder

  /** In front of any further bits, these bits take the decoder from one pair of tables to another, producing `out`. */
  ghost predicate Moves(b: Bits, from: (Table, Table), to: (Table, Table), out: seq<Byte>) {
    forall total: nat, rest: Bits, items: seq<Item> :: total >= |b| + |rest| ==>
      DecodeFrom(total, b + rest, State(from.0, from.1, items)) ==
      DecodeFrom(total, rest, State(to.0, to.1, items + Chars(out)))
  }

  /** The decoder is in one table for good. */
  function In(t: Table): (Table, Table) {
    (t, t)
  }

  lemma MovesUse(b: Bits, from: (Table, Table), to: (Table, Table), out: seq<Byte>, total: nat, rest: Bits,
                 items: seq<Item>)
    requires Moves(b, from, to, out) && total >= |b| + |rest|
    ensures DecodeFrom(total, b + rest, State(from.0, from.1, items)) ==
            DecodeFrom(total, rest, State(to.0, to.1, items + Chars(out)))
  {
  }

  lemma MovesNothing(t: (Table, Table))
    ensures Moves([], t, t, [])
  {
    forall total: nat, rest: Bits, items: seq<Item> | total >= |rest|
      ensures DecodeFrom(total, [] + rest, State(t.0, t.1, items)) ==
              DecodeFrom(total, rest, State(t.0, t.1, items + Chars([])))
    {
      assert [] + rest == rest && items + Chars([]) == items;
    }
  }

  lemma MovesJoin(b1: Bits, b2: Bits, x: (Table, Table), y: (Table, Table), z: (Table, Table), o1: seq<Byte>,
                  o2: seq<Byte>)
    requires Moves(b1, x, y, o1) && Moves(b2, y, z, o2)
    ensures Moves(b1 + b2, x, z, o1 + o2)
  {
    hide DecodeFrom;
    forall total: nat, rest: Bits, items: seq<Item> | total >= |b1 + b2| + |rest|
      ensures DecodeFrom(total, (b1 + b2) + rest, State(x.0, x.1, items)) ==
              DecodeFrom(total, rest, State(z.0, z.1, items + Chars(o1 + o2)))
    {
      Reassociate(b1, b2, rest);
      MovesUse(b1, x, y, o1, total, b2 + rest, items);
      MovesUse(b2, y, z, o2, total, rest, items + Chars(o1));
      CharsJoin(items, o1, o2);
    }
  }

  lemma CharsJoin(items: seq<Item>, o1: seq<Byte>, o2: seq<Byte>)
    ensures items + Chars(o1) + Chars(o2) == items + Chars(o1 + o2)
  {
  }

  /** Reading back n bits. */
  lemma TakeBits(total: nat, c: nat, n: nat, rest: Bits)
    requires c < Pow2(n) && total >= n + |rest|
    ensures Take(total, n, MsbBits(c, n) + rest) == Got(c, rest)
  {
    hide MsbBits, FromMsb;
    FromMsbBits(c, n);
    var bits := MsbBits(c, n) + rest;
    assert bits[..n] == MsbBits(c, n) && bits[n..] == rest;
  }

  /** One code in the current table, unless it is FLG(n). */
  function AfterCode(latch: Table, t: Table, code: nat): ((Table, Table), seq<Byte>)
    requires t != BINARY && code < (if t == DIGIT then 16 else 32)
  {
    match GetCharacter(t, code)
    case Latch(u) => (In(u), [])
    case Shift(u) => ((t, u), [])
    case Text(chars) => (In(latch), chars)
    case Flgn => (In(latch), [])
  }

  lemma OneCode(latch: Table, t: Table, code: nat)
    requires t != BINARY && code < (if t == DIGIT then 16 else 32) && !GetCharacter(t, code).Flgn?
    ensures var r := AfterCode(latch, t, code);
      Moves(MsbBits(code, Width(t)), (latch, t), r.0, r.1)
  {
    SmallPowers();
    hide MsbBits, DecodeFrom, GetCharacter, Pow2;
    var b := MsbBits(code, Width(t));
    var r := AfterCode(latch, t, code);
    forall total: nat, rest: Bits, items: seq<Item> | total >= |b| + |rest|
      ensures DecodeFrom(total, b + rest, State(latch, t, items)) ==
              DecodeFrom(total, rest, State(r.0.0, r.0.1, items + Chars(r.1)))
    {
      DecodeStep(total, b + rest, State(latch, t, items));
      TakeBits(total, code, Width(t), rest);
      assert items + Chars([]) == items;
    }
  }

  lemma MsbJoin(hi: nat, lo: nat, m: nat, n: nat)
    requires lo < Pow2(n)
    ensures MsbBits(hi * Pow2(n) + lo, m + n) == MsbBits(hi, m) + MsbBits(lo, n)
    decreases n
  {
    if n == 0 {
      Pow2Zero();
      assert hi * 1 + lo == hi && MsbBits(lo, 0) == [];
    } else {
      hide MsbBits, Pow2;
      Pow2Next(n - 1);
      MsbJoin(hi, lo / 2, m, n - 1);
      HalfOf(hi, Pow2(n - 1), lo, Pow2(n));
      MsbSnoc(hi * Pow2(n) + lo, m + n - 1);
      MsbSnoc(lo, n - 1);
      Reassociate(MsbBits(hi, m), MsbBits(lo / 2, n - 1), [lo % 2 == 1]);
    }
  }

  lemma HalfOf(hi: nat, p: nat, lo: nat, twice: nat)
    requires twice == 2 * p
    ensures (hi * twice + lo) / 2 == hi * p + lo / 2
    ensures (hi * twice + lo) % 2 == lo % 2
  {
    assert hi * twice == 2 * (hi * p);
  }

  /** A latch from table to table with one code. */
  lemma LatchOnce(t: Table, code: nat, u: Table)
    requires t != BINARY && code < (if t == DIGIT then 16 else 32) && GetCharacter(t, code) == Latch(u)
    ensures Moves(MsbBits(code, Width(t)), In(t), In(u), [])
  {
    hide Moves, MsbBits;
    OneCode(t, t, code);
  }

  /** A latch over a table in between. */
  lemma LatchTwice(t: Table, c1: nat, u: Table, c2: nat, v: Table, packed: nat, n: nat)
    requires t != BINARY && u != BINARY
    requires c1 < (if t == DIGIT then 16 else 32) && GetCharacter(t, c1) == Latch(u)
    requires c2 < (if u == DIGIT then 16 else 32) && GetCharacter(u, c2) == Latch(v)
    requires packed == c1 * (if u == DIGIT then 16 else 32) + c2 && n == Width(t) + Width(u)
    ensures Moves(MsbBits(packed, n), In(t), In(v), [])
  {
    SmallPowers();
    hide Moves, MsbBits, Pow2;
    LatchOnce(t, c1, u);
    LatchOnce(u, c2, v);
    MovesJoin(MsbBits(c1, Width(t)), MsbBits(c2, Width(u)), In(t), In(u), In(v), [], []);
    assert Pow2(Width(u)) == if u == DIGIT then 16 else 32;
    MsbJoin(c1, c2, Width(t), Width(u));
    NothingTwice();
  }

  lemma NothingTwice()
    ensures var nothing: seq<Byte> := [];
      nothing + nothing == nothing
  {
  }

  // ----- runs of bytes

  function ByteBits(s: seq<Byte>): Bits {
    if |s| == 0 then [] else MsbBits(s[0], 8) + ByteBits(s[1..])
  }

  lemma {:induction false} TakeAll(total: nat, s: seq<Byte>, rest: Bits, st: State)
    requires total >= |ByteBits(s)| + |rest|
    ensures TakeBytes(total, |s|, ByteBits(s) + rest, st) ==
            Next(st.(shift := st.latch, items := st.items + Chars(s)), rest)
    decreases |s|
  {
    hide MsbBits, Take;
    if |s| == 0 {
      assert ByteBits(s) + rest == rest && st.items + Chars(s) == st.items;
    } else {
      SmallPowers();
      Reassociate(MsbBits(s[0], 8), ByteBits(s[1..]), rest);
      TakeBits(total, s[0], 8, ByteBits(s[1..]) + rest);
      TakeAll(total, s[1..], rest, st.(items := st.items + [Char(s[0])]));
      assert st.items + [Char(s[0])] + Chars(s[1..]) == st.items + Chars(s);
    }
  }

  lemma {:induction false} ByteBitsLength(s: seq<Byte>)
    ensures |ByteBits(s)| == 8 * |s|
  {
    if |s| > 0 {
      ByteBitsLength(s[1..]);
    }
  }

  lemma ShortRunAt(t: Table, s: seq<Byte>, total: nat, rest: Bits, items: seq<Item>)
    requires 1 <= |s| <= 31 && total >= 5 + |ByteBits(s)| + |rest|
    ensures DecodeFrom(total, MsbBits(|s|, 5) + ByteBits(s) + rest, State(t, BINARY, items)) ==
            DecodeFrom(total, rest, State(t, t, items + Chars(s)))
  {
    SmallPowers();
    hide MsbBits, DecodeFrom, Pow2, Take, ByteBits;
    Reassociate(MsbBits(|s|, 5), ByteBits(s), rest);
    DecodeStep(total, MsbBits(|s|, 5) + ByteBits(s) + rest, State(t, BINARY, items));
    TakeBits(total, |s|, 5, ByteBits(s) + rest);
    TakeAll(total, s, rest, State(t, BINARY, items));
  }

  /** Binary shift with a short count. */
  lemma ShortRun(t: Table, s: seq<Byte>)
    requires 1 <= |s| <= 31
    ensures Moves(MsbBits(|s|, 5) + ByteBits(s), (t, BINARY), In(t), s)
  {
    hide MsbBits, DecodeFrom, ByteBits;
    var b := MsbBits(|s|, 5) + ByteBits(s);
    forall total: nat, rest: Bits, items: seq<Item> | total >= |b| + |rest|
      ensures DecodeFrom(total, b + rest, State(t, BINARY, items)) ==
              DecodeFrom(total, rest, State(t, t, items + Chars(s)))
    {
      ShortRunAt(t, s, total, rest, items);
    }
  }

  lemma LongRound(t: Table, s: seq<Byte>, total: nat, rest: Bits, items: seq<Item>)
    requires 63 <= |s| <= 2047 + 31 && total >= 16 + |ByteBits(s)| + |rest|
    ensures BinaryRound(total, MsbBits(0, 5) + (MsbBits(|s| - 31, 11) + (ByteBits(s) + rest)),
                        State(t, BINARY, items)) ==
            Next(State(t, t, items + Chars(s)), rest)
  {
    SmallPowers();
    hide MsbBits, Pow2, Take, ByteBits, TakeBytes;
    TakeBits(total, 0, 5, MsbBits(|s| - 31, 11) + (ByteBits(s) + rest));
    TakeBits(total, |s| - 31, 11, ByteBits(s) + rest);
    TakeAll(total, s, rest, State(t, BINARY, items));
  }

  lemma LongRunAt(t: Table, s: seq<Byte>, total: nat, rest: Bits, items: seq<Item>)
    requires 63 <= |s| <= 2047 + 31 && total >= 16 + |ByteBits(s)| + |rest|
    ensures DecodeFrom(total, MsbBits(|s| - 31, 16) + ByteBits(s) + rest, State(t, BINARY, items)) ==
            DecodeFrom(total, rest, State(t, t, items + Chars(s)))
  {
    SmallPowers();
    hide MsbBits, DecodeFrom, Pow2, ByteBits, BinaryRound;
    MsbJoin(0, |s| - 31, 5, 11);
    Regroup4(MsbBits(0, 5), MsbBits(|s| - 31, 11), ByteBits(s), rest);
    LongRound(t, s, total, rest, items);
    DecodeStep(total, MsbBits(|s| - 31, 16) + ByteBits(s) + rest, State(t, BINARY, items));
  }

  /** Binary shift with the long count: sixteen bits of which the first five are zero. */
  lemma LongRun(t: Table, s: seq<Byte>)
    requires 63 <= |s| <= 2047 + 31
    ensures Moves(MsbBits(|s| - 31, 16) + ByteBits(s), (t, BINARY), In(t), s)
  {
    hide MsbBits, DecodeFrom, ByteBits;
    var b := MsbBits(|s| - 31, 16) + ByteBits(s);
    forall total: nat, rest: Bits, items: seq<Item> | total >= |b| + |rest|
      ensures DecodeFrom(total, b + rest, State(t, BINARY, items)) ==
              DecodeFrom(total, rest, State(t, t, items + Chars(s)))
    {
      LongRunAt(t, s, total, rest, items);
    }
  }
}
