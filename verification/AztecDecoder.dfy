// The latch and shift machine that reads an Aztec message (zxing-core/src/aztec/AZDecoder.cpp:27-298;
// ISO/IEC 24778:2008, sections 7.3 and 10.1).
module AztecDecoder {
  import opened BitOps
  import opened BitStream
  import opened BitArrays

  datatype Table = UPPER | LOWER | MIXED | DIGIT | PUNCT | BINARY

  /** A table entry: characters, a change of table that stays or lasts for one code, or FLG(n). */
  datatype Entry = Text(chars: seq<Byte>) | Latch(table: Table) | Shift(table: Table) | Flgn

  function UpperEntry(code: nat): Entry
    requires code < 32
  {
    if code == 0 then Shift(PUNCT)
    else if code == 1 then Text([32])
    else if code <= 27 then Text([code + 63])
    else if code == 28 then Latch(LOWER)
    else if code == 29 then Latch(MIXED)
    else if code == 30 then Latch(DIGIT)
    else Shift(BINARY)
  }

  function LowerEntry(code: nat): Entry
    requires code < 32
  {
    if code == 0 then Shift(PUNCT)
    else if code == 1 then Text([32])
    else if code <= 27 then Text([code + 95])
    else if code == 28 then Shift(UPPER)
    else if code == 29 then Latch(MIXED)
    else if code == 30 then Latch(DIGIT)
    else Shift(BINARY)
  }

  function MixedChar(code: nat): Byte
    requires 1 <= code <= 27
  {
    if code == 1 then 32
    else if code <= 14 then code - 1
    else if code <= 19 then code + 12
    else if code == 20 then 64
    else if code == 21 then 92
    else if code <= 24 then code + 72
    else if code == 25 then 124
    else if code == 26 then 126
    else 127
  }

  function MixedEntry(code: nat): Entry
    requires code < 32
  {
    if code == 0 then Shift(PUNCT)
    else if code <= 27 then Text([MixedChar(code)])
    else if code == 28 then Latch(LOWER)
    else if code == 29 then Latch(UPPER)
    else if code == 30 then Latch(PUNCT)
    else Shift(BINARY)
  }

  function PunctChar(code: nat): Byte
    requires 6 <= code <= 30
  {
    if code <= 20 then code + 27
    else if code <= 26 then code + 37
    else if code == 27 then 91
    else if code == 28 then 93
    else if code == 29 then 123
    else 125
  }

  function PunctEntry(code: nat): Entry
    requires code < 32
  {
    if code == 0 then Flgn
    else if code == 1 then Text([13])
    else if code == 2 then Text([13, 10])
    else if code == 3 then Text([46, 32])
    else if code == 4 then Text([44, 32])
    else if code == 5 then Text([58, 32])
    else if code <= 30 then Text([PunctChar(code)])
    else Latch(UPPER)
  }

  function DigitEntry(code: nat): Entry
    requires code < 16
  {
    if code == 0 then Shift(PUNCT)
    else if code == 1 then Text([32])
    else if code <= 11 then Text([code + 46])
    else if code == 12 then Text([44])
    else if code == 13 then Text([46])
    else if code == 14 then Latch(UPPER)
    else Shift(UPPER)
  }

  const UPPER_TEXT: string := " ABCDEFGHIJKLMNOPQRSTUVWXYZ"
  const LOWER_TEXT: string := " abcdefghijklmnopqrstuvwxyz"
  const DIGIT_TEXT: string := " 0123456789,."
  const PUNCT_TEXT: string := "!\"#$%&'()*+,-./:;<=>?[]{}"
  const MIXED_TEXT: string := "@\\^_`|~"

  /** The printable characters of the tables, as table 2 of ISO/IEC 24778:2008 lists them: letters. */
  lemma LetterTexts()
    ensures |UPPER_TEXT| == 27 && |LOWER_TEXT| == 27
    ensures forall k :: 0 <= k < 27 ==> UpperEntry(k + 1) == Text([UPPER_TEXT[k] as nat])
    ensures forall k :: 0 <= k < 27 ==> LowerEntry(k + 1) == Text([LOWER_TEXT[k] as nat])
  {
  }

  /** And digits, punctuation and the rest. */
  lemma SymbolTexts()
    ensures |DIGIT_TEXT| == 13 && |PUNCT_TEXT| == 25 && |MIXED_TEXT| == 7
    ensures forall k :: 0 <= k < 13 ==> DigitEntry(k + 1) == Text([DIGIT_TEXT[k] as nat])
    ensures forall k :: 0 <= k < 25 ==> PunctEntry(k + 6) == Text([PUNCT_TEXT[k] as nat])
    ensures forall k :: 0 <= k < 7 ==> MixedEntry(k + 20) == Text([MIXED_TEXT[k] as nat])
  {
  }

  /** The bits of a code in this table. */
  function Width(t: Table): (n: nat)
    ensures 4 <= n <= 5
  {
    if t == DIGIT then 4 else 5
  }

  /** GetCharacter. */
  function GetCharacter(t: Table, code: nat): Entry
    requires t != BINARY && code < (if t == DIGIT then 16 else 32)
  {
    match t
    case UPPER => UpperEntry(code)
    case LOWER => LowerEntry(code)
    case MIXED => MixedEntry(code)
    case PUNCT => PunctEntry(code)
    case DIGIT => DigitEntry(code)
  }

  /** A character, or a switch to another character set. */
  datatype Item = Char(byte: Byte) | Eci(value: int)

  /** Threw: more bits were asked for than the message has in all. Overran: more than were left. */
  datatype Outcome = Decoded(items: seq<Item>) | Threw | Overran

  function Chars(s: seq<Byte>): (items: seq<Item>)
    ensures |items| == |s|
  {
    seq(|s|, i requires 0 <= i < |s| => Char(s[i]))
  }

  // ----- the meaning of a message

  /** One read of n bits out of a message of `total` bits. */
  datatype Got = Got(value: nat, rest: Bits) | GotThrew | GotOverran

  function Take(total: nat, n: nat, bits: Bits): (r: Got)
    ensures r.Got? ==> |r.rest| + n == |bits| && r.value < Pow2(n)
  {
    if n > total then GotThrew
    else if n > |bits| then GotOverran
    else
      MsbBitsFrom(bits[..n]);
      Got(FromMsb(bits[..n]), bits[n..])
  }

  datatype State = State(latch: Table, shift: Table, items: seq<Item>)

  /** What one round of the loop makes of the state. */
  datatype Round = Next(state: State, rest: Bits) | RoundThrew | RoundOverran

  function TakeBytes(total: nat, count: nat, bits: Bits, s: State): (r: Round)
    ensures r.Next? ==> |r.rest| <= |bits|
    decreases count
  {
    if count == 0 then Next(s.(shift := s.latch), bits)
    else
      match Take(total, 8, bits)
      case GotThrew => RoundThrew
      case GotOverran => RoundOverran
      case Got(b, rest) =>
        SmallPowers();
        TakeBytes(total, count - 1, rest, s.(items := s.items + [Char(b)]))
  }

  function BinaryRound(total: nat, bits: Bits, s: State): (r: Round)
    ensures r.Next? ==> |r.rest| < |bits|
  {
    match Take(total, 5, bits)
    case GotThrew => RoundThrew
    case GotOverran => RoundOverran
    case Got(short, rest) =>
      if short != 0 then TakeBytes(total, short, rest, s)
      else
        match Take(total, 11, rest)
        case GotThrew => RoundThrew
        case GotOverran => RoundOverran
        case Got(long, rest') => TakeBytes(total, long + 31, rest', s)
  }

  /** The digits of an ECI number. */
  function TakeEci(total: nat, count: nat, bits: Bits, s: State, eci: int): (r: Round)
    ensures r.Next? ==> |r.rest| <= |bits|
    decreases count
  {
    if count == 0 then Next(s.(shift := s.latch, items := s.items + [Eci(eci)]), bits)
    else
      match Take(total, 4, bits)
      case GotThrew => RoundThrew
      case GotOverran => RoundOverran
      case Got(d, rest) => TakeEci(total, count - 1, rest, s, 10 * eci + d - 2)
  }

  function FlgRound(total: nat, bits: Bits, s: State): (r: Round)
    ensures r.Next? ==> |r.rest| <= |bits|
  {
    match Take(total, 3, bits)
    case GotThrew => RoundThrew
    case GotOverran => RoundOverran
    case Got(flg, rest) =>
      if flg == 0 then Next(s.(shift := s.latch, items := s.items + [Char(29)]), rest)
      else if flg <= 6 then TakeEci(total, flg, rest, s, 0)
      else Next(s.(shift := s.latch), rest)
  }

  function CodeRound(total: nat, bits: Bits, s: State): (r: Round)
    requires s.shift != BINARY
    ensures r.Next? ==> |r.rest| < |bits|
  {
    match Take(total, Width(s.shift), bits)
    case GotThrew => RoundThrew
    case GotOverran => RoundOverran
    case Got(code, rest) =>
      SmallPowers();
      match GetCharacter(s.shift, code)
      case Latch(t) => Next(State(t, t, s.items), rest)
      case Shift(t) => Next(State(s.shift, t, s.items), rest)
      case Flgn => FlgRound(total, rest, s)
      case Text(chars) => Next(s.(shift := s.latch, items := s.items + Chars(chars)), rest)
  }

  function DecodeRound(total: nat, bits: Bits, s: State): (r: Round)
    ensures r.Next? ==> |r.rest| < |bits|
  {
    if s.shift == BINARY then BinaryRound(total, bits, s) else CodeRound(total, bits, s)
  }

  /** The whole message: rounds until fewer bits are left than a code needs. */
  function DecodeFrom(total: nat, bits: Bits, s: State): Outcome
    decreases |bits|
  {
    if |bits| < Width(s.shift) then Decoded(s.items)
    else
      match DecodeRound(total, bits, s)
      case Next(s', rest) => DecodeFrom(total, rest, s')
      case RoundThrew => Threw
      case RoundOverran => Overran
  }

  function Decode(bits: Bits): Outcome {
    DecodeFrom(|bits|, bits, State(UPPER, UPPER, []))
  }

  // ----- the loop

  datatype Status = Ok | Throws | Overruns

  /** A cursor over the bits of a message. */
  class BitArrayView {
    const bits: Bits
    var cur: nat

    ghost predicate Valid()
      reads this
    {
      cur <= |bits|
    }

    function Rest(): Bits
      requires Valid()
      reads this
    {
      bits[cur..]
    }

    constructor (b: Bits)
      ensures Valid() && bits == b && Rest() == b
    {
      bits, cur := b, 0;
    }

    /** readBits: the size check is against the whole message, not against what is left of it. */
    method ReadBits(n: nat) returns (st: Status, value: nat)
      requires Valid()
      modifies this
      ensures Valid() && (st != Ok ==> cur == old(cur))
      ensures match Take(|bits|, n, old(Rest()))
              case Got(v, rest) => st == Ok && value == v && Rest() == rest
              case GotThrew => st == Throws
              case GotOverran => st == Overruns
    {
      if n > |bits| {
        return Throws, 0;
      }
      if n > |bits| - cur {
        return Overruns, 0;
      }
      value := ToInt(bits, cur, n);
      assert bits[cur..][..n] == bits[cur..cur + n];
      cur := cur + n;
      st := Ok;
    }
  }

  /** What a round returns, in terms of the variables of the loop. */
  ghost predicate RoundDone(r: Round, st: Status, s: State, rest: Bits) {
    match r
    case Next(s', rest') => st == Ok && s == s' && rest == rest'
    case RoundThrew => st == Throws
    case RoundOverran => st == Overruns
  }

  /** Lines 260 to 266. */
  method ReadBinary(view: BitArrayView, s: State) returns (st: Status, s': State)
    requires view.Valid()
    modifies view
    ensures view.Valid() && RoundDone(BinaryRound(|view.bits|, old(view.Rest()), s), st, s', view.Rest())
  {
    hide Take;
    s' := s;
    var length;
    st, length := view.ReadBits(5);
    if st != Ok {
      return;
    }
    if length == 0 {
      st, length := view.ReadBits(11);
      if st != Ok {
        return;
      }
      length := length + 31;
    }
    ghost var goal := TakeBytes(|view.bits|, length, view.Rest(), s);
    var i := 0;
    while i < length
      invariant i <= length && view.Valid() && st == Ok
      invariant TakeBytes(|view.bits|, length - i, view.Rest(), s') == goal
    {
      var b;
      st, b := view.ReadBits(8);
      if st != Ok {
        return;
      }
      SmallPowers();
      s' := s'.(items := s'.items + [Char(b)]);
      i := i + 1;
    }
    s' := s'.(shift := s'.latch);
  }

  /** ParseECIValue, lines 213 to 215. */
  method ReadEci(view: BitArrayView, s: State, flg: nat) returns (st: Status, s': State)
    requires view.Valid()
    modifies view
    ensures view.Valid() && RoundDone(TakeEci(|view.bits|, flg, old(view.Rest()), s, 0), st, s', view.Rest())
  {
    hide Take;
    st, s' := Ok, s;
    var eci: int := 0;
    ghost var goal := TakeEci(|view.bits|, flg, view.Rest(), s, 0);
    var i := 0;
    while i < flg
      invariant i <= flg && view.Valid() && st == Ok
      invariant TakeEci(|view.bits|, flg - i, view.Rest(), s, eci) == goal
    {
      var d;
      st, d := view.ReadBits(4);
      if st != Ok {
        return;
      }
      eci := 10 * eci + d - 2;
      i := i + 1;
    }
    s' := s.(shift := s.latch, items := s.items + [Eci(eci)]);
  }

  /** Lines 281 to 290. */
  method ReadFlg(view: BitArrayView, s: State) returns (st: Status, s': State)
    requires view.Valid()
    modifies view
    ensures view.Valid() && RoundDone(FlgRound(|view.bits|, old(view.Rest()), s), st, s', view.Rest())
  {
    hide Take, TakeEci;
    s' := s;
    var flg;
    st, flg := view.ReadBits(3);
    if st != Ok {
      return;
    }
    if flg == 0 {
      s' := s.(shift := s.latch, items := s.items + [Char(29)]);
    } else if flg <= 6 {
      st, s' := ReadEci(view, s, flg);
    } else {
      s' := s.(shift := s.latch);
    }
  }

  /** Lines 268 to 295. */
  method ReadCode(view: BitArrayView, s: State) returns (st: Status, s': State)
    requires view.Valid() && s.shift != BINARY
    modifies view
    ensures view.Valid() && RoundDone(CodeRound(|view.bits|, old(view.Rest()), s), st, s', view.Rest())
  {
    hide FlgRound, Take;
    s' := s;
    var code;
    st, code := view.ReadBits(Width(s.shift));
    if st != Ok {
      return;
    }
    SmallPowers();
    match GetCharacter(s.shift, code)
    case Latch(t) =>
      s' := State(t, t, s.items);
    case Shift(t) =>
      s' := State(s.shift, t, s.items);
    case Flgn =>
      st, s' := ReadFlg(view, s);
    case Text(chars) =>
      s' := s.(shift := s.latch, items := s.items + Chars(chars));
  }

  /** DecodeContent. */
  method DecodeContent(bits: Bits) returns (r: Outcome)
    ensures r == Decode(bits)
  {
    hide BinaryRound, CodeRound, DecodeFrom;
    var view := new BitArrayView(bits);
    var s := State(UPPER, UPPER, []);
    while |view.bits| - view.cur >= Width(s.shift)
      invariant view.Valid() && view.bits == bits && DecodeFrom(|bits|, view.Rest(), s) == Decode(bits)
      decreases |view.Rest()|
    {
      var st;
      DecodeStep(|bits|, view.Rest(), s);
      if s.shift == BINARY {
        st, s := ReadBinary(view, s);
      } else {
        st, s := ReadCode(view, s);
      }
      if st == Throws {
        return Threw;
      } else if st == Overruns {
        return Overran;
      }
    }
    DecodeStep(|bits|, view.Rest(), s);
    r := Decoded(s.items);
  }

  lemma DecodeStep(total: nat, bits: Bits, s: State)
    ensures |bits| < Width(s.shift) ==> DecodeFrom(total, bits, s) == Decoded(s.items)
    ensures |bits| >= Width(s.shift) ==>
              DecodeFrom(total, bits, s) ==
              match DecodeRound(total, bits, s)
              case Next(s', rest) => DecodeFrom(total, rest, s')
              case RoundThrew => Threw
              case RoundOverran => Overran
  {
    hide DecodeRound;
  }
}
