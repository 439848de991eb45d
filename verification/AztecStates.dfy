// States of the Aztec text encoder (zxing-core/src/aztec/AZHighLevelEncoder.cpp:22-187, AZEncodingState.h): the
// transitions are functions on immutable states, and every state decodes to the text read so far.
module AztecStates {
  import opened Sequences
  import opened BitOps
  import opened BitStream
  import opened BitOutput
  import opened CanonicalCode
  import opened BitArrays
  import opened AztecDecoder
  import opened AztecCodes
  import opened AztecTokens

  const MODE_UPPER := 0
  const MODE_LOWER := 1
  const MODE_DIGIT := 2
  const MODE_MIXED := 3
  const MODE_PUNCT := 4

  /** The decoder's table for a mode of the encoder. */
  function TableOf(mode: nat): Table {
    if mode == MODE_UPPER then UPPER
    else if mode == MODE_LOWER then LOWER
    else if mode == MODE_DIGIT then DIGIT
    else if mode == MODE_MIXED then MIXED
    else PUNCT
  }

  // ----- the tables

  function Packed(bits: nat, codes: nat): nat {
    bits * 65536 + codes
  }

  /** LATCH_TABLE: the number of bits in the high half-word, the codes in the low one. */
  function LatchTable(from: nat, to: nat): nat {
    if from == MODE_UPPER then
      if to == MODE_LOWER then Packed(5, 28)
      else if to == MODE_DIGIT then Packed(5, 30)
      else if to == MODE_MIXED then Packed(5, 29)
      else if to == MODE_PUNCT then Packed(10, 29 * 32 + 30)
      else 0
    else if from == MODE_LOWER then
      if to == MODE_UPPER then Packed(9, 30 * 16 + 14)
      else if to == MODE_DIGIT then Packed(5, 30)
      else if to == MODE_MIXED then Packed(5, 29)
      else if to == MODE_PUNCT then Packed(10, 29 * 32 + 30)
      else 0
    else if from == MODE_DIGIT then
      if to == MODE_UPPER then Packed(4, 14)
      else if to == MODE_LOWER then Packed(9, 14 * 32 + 28)
      else if to == MODE_MIXED then Packed(9, 14 * 32 + 29)
      else if to == MODE_PUNCT then Packed(14, 14 * 1024 + 29 * 32 + 30)
      else 0
    else if from == MODE_MIXED then
      if to == MODE_UPPER then Packed(5, 29)
      else if to == MODE_LOWER then Packed(5, 28)
      else if to == MODE_DIGIT then Packed(10, 29 * 32 + 30)
      else if to == MODE_PUNCT then Packed(5, 30)
      else 0
    else
      if to == MODE_UPPER then Packed(5, 31)
      else if to == MODE_LOWER then Packed(10, 31 * 32 + 28)
      else if to == MODE_DIGIT then Packed(10, 31 * 32 + 30)
      else if to == MODE_MIXED then Packed(10, 31 * 32 + 29)
      else 0
  }

  function LatchCodes(from: nat, to: nat): nat {
    LatchTable(from, to) % 65536
  }

  function LatchBits(from: nat, to: nat): nat {
    LatchTable(from, to) / 65536
  }

  /** SHIFT_TABLE: the code of a shift, or -1. */
  function ShiftTable(from: nat, to: nat): int {
    if to == MODE_PUNCT && from <= MODE_MIXED then 0
    else if from == MODE_LOWER && to == MODE_UPPER then 28
    else if from == MODE_DIGIT && to == MODE_UPPER then 15
    else -1
  }

  /** The bits of a code in a mode. */
  function ModeWidth(mode: nat): nat {
    if mode == MODE_DIGIT then 4 else 5
  }

  const MIXED_TABLE: seq<Byte> :=
    [0x00, 0x20, 0x01, 0x02, 0x03, 0x04, 0x05, 0x06, 0x07, 0x08, 0x09, 0x0a, 0x0b, 0x0c,
     0x0d, 0x1b, 0x1c, 0x1d, 0x1e, 0x1f, 0x40, 0x5c, 0x5e, 0x5f, 0x60, 0x7c, 0x7d, 0x7f]

  /** Zero stands for no entry; the apostrophe appears twice. */
  const PUNCT_TABLE: seq<Byte> :=
    [0, 13, 0, 0, 0, 0, 33, 39, 35, 36, 37, 38, 39, 40, 41, 42,
     43, 44, 45, 46, 47, 58, 59, 60, 61, 62, 63, 91, 93, 123, 125]

  /** The last place of ch among the first n entries; zero when there is none. */
  function LastIndex(table: seq<Byte>, n: nat, ch: Byte): (i: nat)
    requires n <= |table|
    ensures i > 0 ==> i < n && table[i] == ch && forall j :: i < j < n ==> table[j] != ch
  {
    if n == 0 then 0 else if table[n - 1] == ch then n - 1 else LastIndex(table, n - 1, ch)
  }

  /** CHAR_MAP: the code of a character in a mode, or zero. */
  function CharMap(mode: nat, ch: Byte): nat {
    if mode == MODE_UPPER then if ch == 32 then 1 else if 65 <= ch <= 90 then ch - 63 else 0
    else if mode == MODE_LOWER then if ch == 32 then 1 else if 97 <= ch <= 122 then ch - 95 else 0
    else if mode == MODE_DIGIT then
      if ch == 32 then 1 else if 48 <= ch <= 57 then ch - 46 else if ch == 44 then 12 else if ch == 46 then 13 else 0
    else if mode == MODE_MIXED then LastIndex(MIXED_TABLE, |MIXED_TABLE|, ch)
    else if ch == 0 then 0 else LastIndex(PUNCT_TABLE, |PUNCT_TABLE|, ch)
  }

  /** The decoder turns the encoder's code for 0x7d in MIXED into 0x7e. */
  predicate SameByte(decoded: Byte, original: Byte) {
    decoded == original || (original == 0x7d && decoded == 0x7e)
  }

  predicate Similar(decoded: seq<Byte>, original: seq<Byte>) {
    |decoded| == |original| && forall i :: 0 <= i < |original| ==> SameByte(decoded[i], original[i])
  }

  lemma MixedAgrees(i: nat)
    requires 1 <= i <= 27
    ensures SameByte(MixedChar(i), MIXED_TABLE[i])
    ensures MixedChar(i) == MIXED_TABLE[i] <==> MIXED_TABLE[i] != 0x7d
  {
  }

  lemma PunctAgrees(i: nat)
    requires 1 <= i <= 30 && PUNCT_TABLE[i] > 0
    ensures i == 1 || (i >= 6 && (PunctChar(i) == PUNCT_TABLE[i] || (i == 7 && PUNCT_TABLE[12] == PUNCT_TABLE[i])))
  {
  }

  /** Every code of the encoder is a character of the decoder, and the same one exactly but for 0x7d in MIXED. */
  lemma CharDecodes(mode: nat, ch: Byte)
    requires mode <= MODE_PUNCT && CharMap(mode, ch) > 0
    ensures CharMap(mode, ch) < (if mode == MODE_DIGIT then 16 else 32)
    ensures var e := GetCharacter(TableOf(mode), CharMap(mode, ch));
      e.Text? && |e.chars| == 1 && SameByte(e.chars[0], ch)
      && (e.chars[0] == ch <==> !(mode == MODE_MIXED && ch == 0x7d))
  {
    if mode == MODE_MIXED {
      MixedDecodes(ch);
    } else if mode == MODE_PUNCT {
      PunctDecodes(ch);
    }
  }

  lemma MixedDecodes(ch: Byte)
    requires CharMap(MODE_MIXED, ch) > 0
    ensures CharMap(MODE_MIXED, ch) <= 27
    ensures SameByte(MixedChar(CharMap(MODE_MIXED, ch)), ch)
    ensures MixedChar(CharMap(MODE_MIXED, ch)) == ch <==> ch != 0x7d
  {
    assert |MIXED_TABLE| == 28;
    MixedAgrees(CharMap(MODE_MIXED, ch));
  }

  lemma PunctDecodes(ch: Byte)
    requires CharMap(MODE_PUNCT, ch) > 0
    ensures CharMap(MODE_PUNCT, ch) <= 30
    ensures PunctEntry(CharMap(MODE_PUNCT, ch)) == Text([ch])
  {
    assert |PUNCT_TABLE| == 31 && PUNCT_TABLE[1] == 13;
    PunctAgrees(CharMap(MODE_PUNCT, ch));
  }

  // ----- what bits encode

  /**
   * In front of any further bits, these bits change tables and produce this text, up to the 0x7d difference; `exact`
   * says whether they produce the text itself.
   */
  ghost predicate Encodes(b: Bits, from: (Table, Table), to: (Table, Table), text: seq<Byte>, exact: bool) {
    exists out :: Similar(out, text) && (out == text <==> exact) && Moves(b, from, to, out)
  }

  lemma EncodesIs(b: Bits, from: (Table, Table), to: (Table, Table), out: seq<Byte>, text: seq<Byte>)
    requires Moves(b, from, to, out) && Similar(out, text)
    ensures Encodes(b, from, to, text, out == text)
  {
  }

  lemma SimilarSelf(s: seq<Byte>)
    ensures Similar(s, s)
  {
  }

  lemma EncodesJoin(b1: Bits, b2: Bits, x: (Table, Table), y: (Table, Table), z: (Table, Table), t1: seq<Byte>,
                    t2: seq<Byte>, e1: bool, e2: bool)
    requires Encodes(b1, x, y, t1, e1) && Encodes(b2, y, z, t2, e2)
    ensures Encodes(b1 + b2, x, z, t1 + t2, e1 && e2)
  {
    hide Moves;
    var o1 :| Similar(o1, t1) && (o1 == t1 <==> e1) && Moves(b1, x, y, o1);
    var o2 :| Similar(o2, t2) && (o2 == t2 <==> e2) && Moves(b2, y, z, o2);
    MovesJoin(b1, b2, x, y, z, o1, o2);
    JoinExact(o1, o2, t1, t2);
    assert Similar(o1 + o2, t1 + t2);
  }

  lemma JoinExact(o1: seq<Byte>, o2: seq<Byte>, t1: seq<Byte>, t2: seq<Byte>)
    requires |o1| == |t1| && |o2| == |t2|
    ensures o1 + o2 == t1 + t2 <==> o1 == t1 && o2 == t2
  {
    if o1 + o2 == t1 + t2 {
      assert o1 == (o1 + o2)[..|o1|] && t1 == (t1 + t2)[..|t1|];
      assert o2 == (o1 + o2)[|o1|..] && t2 == (t1 + t2)[|t1|..];
    }
  }

  /** Every entry of the latch table takes the decoder to its mode. */
  lemma LatchEncodes(from: nat, to: nat)
    requires from <= MODE_PUNCT && to <= MODE_PUNCT && from != to
    ensures Encodes(MsbBits(LatchCodes(from, to), LatchBits(from, to)), In(TableOf(from)), In(TableOf(to)), [], true)
    ensures LatchCodes(from, to) < 32768 && 1 <= LatchBits(from, to) <= 14
  {
    if from <= MODE_LOWER {
      LatchFromLetters(from, to);
    } else if from == MODE_DIGIT {
      LatchFromDigit(to);
    } else {
      LatchFromOther(from, to);
    }
    hide Moves, MsbBits, LatchCodes, LatchBits;
    SimilarSelf([]);
    EncodesIs(MsbBits(LatchCodes(from, to), LatchBits(from, to)), In(TableOf(from)), In(TableOf(to)), [], []);
  }

  /** One entry of the latch table. */
  ghost predicate LatchWorks(from: nat, to: nat) {
    && Moves(MsbBits(LatchCodes(from, to), LatchBits(from, to)), In(TableOf(from)), In(TableOf(to)), [])
    && LatchCodes(from, to) < 32768 && 1 <= LatchBits(from, to) <= 14
  }

  lemma LatchFromLetters(from: nat, to: nat)
    requires from <= MODE_LOWER && to <= MODE_PUNCT && from != to
    ensures LatchWorks(from, to)
  {
    hide Moves, MsbBits;
    if from == MODE_LOWER && to == MODE_UPPER {
      LatchTwice(LOWER, 30, DIGIT, 14, UPPER, 30 * 16 + 14, 9);
    } else if to == MODE_PUNCT {
      LatchTwice(TableOf(from), 29, MIXED, 30, PUNCT, 29 * 32 + 30, 10);
    } else {
      LatchOnce(TableOf(from), LatchCodes(from, to), TableOf(to));
    }
  }

  lemma LatchFromDigit(to: nat)
    requires to <= MODE_PUNCT && to != MODE_DIGIT
    ensures LatchWorks(MODE_DIGIT, to)
  {
    hide Moves, MsbBits;
    if to == MODE_UPPER {
      LatchOnce(DIGIT, 14, UPPER);
    } else if to == MODE_LOWER {
      LatchTwice(DIGIT, 14, UPPER, 28, LOWER, 14 * 32 + 28, 9);
    } else if to == MODE_MIXED {
      LatchTwice(DIGIT, 14, UPPER, 29, MIXED, 14 * 32 + 29, 9);
    } else {
      LatchThrice();
    }
  }

  lemma LatchFromOther(from: nat, to: nat)
    requires MODE_MIXED <= from <= MODE_PUNCT && to <= MODE_PUNCT && from != to
    ensures LatchWorks(from, to)
  {
    hide Moves, MsbBits;
    if from == MODE_MIXED && to == MODE_DIGIT {
      LatchTwice(MIXED, 29, UPPER, 30, DIGIT, 29 * 32 + 30, 10);
    } else if from == MODE_MIXED {
      LatchOnce(MIXED, LatchCodes(from, to), TableOf(to));
    } else if to == MODE_UPPER {
      LatchOnce(PUNCT, 31, UPPER);
    } else {
      LatchTwice(PUNCT, 31, UPPER, LatchCodes(from, to) % 32, TableOf(to), LatchCodes(from, to), 10);
    }
  }

  /** DIGIT to PUNCT by way of UPPER and MIXED. */
  lemma LatchThrice()
    ensures Moves(MsbBits(14 * 1024 + 29 * 32 + 30, 14), In(DIGIT), In(PUNCT), [])
  {
    hide Moves, MsbBits;
    LatchOnce(DIGIT, 14, UPPER);
    LatchTwice(UPPER, 29, MIXED, 30, PUNCT, 29 * 32 + 30, 10);
    MovesJoin(MsbBits(14, 4), MsbBits(29 * 32 + 30, 10), In(DIGIT), In(UPPER), In(PUNCT), [], []);
    SmallPowers();
    MsbJoin(14, 29 * 32 + 30, 4, 10);
    NothingTwice();
  }

  // ----- states

  datatype EncodingState = EncodingState(tokens: seq<Token>, mode: nat, binaryShiftByteCount: nat, bitCount: int)

  predicate AllFit(tokens: seq<Token>, size: nat) {
    forall i :: 0 <= i < |tokens| ==> Fits(tokens[i], size)
  }

  function TokensBits(tokens: seq<Token>, text: seq<Byte>): Bits
    requires AllFit(tokens, |text|)
  {
    if |tokens| == 0 then []
    else TokensBits(tokens[..|tokens| - 1], text) + TokenBits(tokens[|tokens| - 1], text)
  }

  // ----- the walk of the tokens over the modes

  /** Where a list of tokens has got to: in a mode, perhaps shifted for one code; swapped if it has code 26 of MIXED. */
  datatype Place = Place(mode: nat, shifted: bool, swapped: bool)

  predicate IsLatch(from: nat, to: nat, t: Token) {
    from != to && t == Token(LatchCodes(from, to), -(LatchBits(from, to) as int))
  }

  /** The mode that a token latches to, or none. */
  function LatchTarget(from: nat, t: Token): nat {
    if IsLatch(from, MODE_UPPER, t) then MODE_UPPER
    else if IsLatch(from, MODE_LOWER, t) then MODE_LOWER
    else if IsLatch(from, MODE_DIGIT, t) then MODE_DIGIT
    else if IsLatch(from, MODE_MIXED, t) then MODE_MIXED
    else if IsLatch(from, MODE_PUNCT, t) then MODE_PUNCT
    else MODE_PUNCT + 1
  }

  predicate IsShift(from: nat, to: nat, t: Token) {
    ShiftTable(from, to) >= 0 && t == Token(ShiftTable(from, to), -(ModeWidth(from) as int))
  }

  function TokenStep(p: Place, t: Token): Place {
    if t.count >= 0 then p
    else if p.shifted then p.(shifted := false)
    else if IsShift(p.mode, MODE_PUNCT, t) || IsShift(p.mode, MODE_UPPER, t) then p.(shifted := true)
    else if LatchTarget(p.mode, t) <= MODE_PUNCT then p.(mode := LatchTarget(p.mode, t))
    else if p.mode == MODE_MIXED && t == Token(26, -5) then p.(swapped := true)
    else p
  }

  function Walk(tokens: seq<Token>): Place {
    if |tokens| == 0 then Place(MODE_UPPER, false, false)
    else TokenStep(Walk(tokens[..|tokens| - 1]), tokens[|tokens| - 1])
  }

  /** Some token is code 26 of MIXED: the one that the encoder takes for 0x7d and the decoder for 0x7e. */
  predicate Swaps(tokens: seq<Token>) {
    Walk(tokens).swapped
  }

  lemma WalkMore(tokens: seq<Token>, t: Token)
    ensures Walk(tokens + [t]) == TokenStep(Walk(tokens), t)
  {
    assert (tokens + [t])[..|tokens|] == tokens;
  }

  lemma SimpleIs(value: nat, n: nat)
    requires value < 32768 && n <= 14
    ensures CreateSimple(value, n) == Token(value, -(n as int))
  {
    ShortKeeps(value);
    ShortKeeps(-(n as int));
  }

  lemma LatchesDiffer(from: nat, to: nat, other: nat)
    requires from <= MODE_PUNCT && to <= MODE_PUNCT && other <= MODE_PUNCT && to != from && other != from && to != other
    ensures LatchCodes(from, to) != LatchCodes(from, other)
  {
  }

  lemma LatchIsNoShift(from: nat, to: nat)
    requires from <= MODE_PUNCT && to <= MODE_PUNCT && to != from
    ensures LatchCodes(from, to) != ShiftTable(from, MODE_PUNCT) && LatchCodes(from, to) != ShiftTable(from, MODE_UPPER)
    ensures LatchCodes(from, to) < 32768 && 0 < LatchBits(from, to) <= 14
  {
  }

  /** The target of a latch is found. */
  lemma LatchFound(from: nat, to: nat)
    requires from <= MODE_PUNCT && to <= MODE_PUNCT && to != from
    ensures LatchTarget(from, Token(LatchCodes(from, to), -(LatchBits(from, to) as int))) == to
  {
    hide LatchCodes, LatchBits;
    forall other: nat | other <= MODE_PUNCT && other != from && other != to
      ensures LatchCodes(from, to) != LatchCodes(from, other)
    {
      LatchesDiffer(from, to, other);
    }
  }

  lemma LatchStep(p: Place, to: nat)
    requires p.mode <= MODE_PUNCT && to <= MODE_PUNCT && to != p.mode && !p.shifted
    ensures TokenStep(p, CreateSimple(LatchCodes(p.mode, to), LatchBits(p.mode, to))) == p.(mode := to)
  {
    LatchFound(p.mode, to);
    LatchIsNoShift(p.mode, to);
    SimpleIs(LatchCodes(p.mode, to), LatchBits(p.mode, to));
    hide LatchTarget, LatchCodes, LatchBits, ShiftTable;
  }

  lemma ShiftStep(p: Place, to: nat, value: nat)
    requires p.mode <= MODE_PUNCT && ShiftTable(p.mode, to) >= 0 && value < 32 && !p.shifted
    ensures var shifted := TokenStep(p, CreateSimple(ShiftTable(p.mode, to), ModeWidth(p.mode)));
      shifted == p.(shifted := true) && TokenStep(shifted, CreateSimple(value, 5)) == p
  {
    SimpleIs(ShiftTable(p.mode, to), ModeWidth(p.mode));
    SimpleIs(value, 5);
    hide LatchTarget, CreateSimple;
  }

  /** A character's code is no latch and no shift. */
  lemma CodeIsNoSwitch(mode: nat, value: nat)
    requires mode <= MODE_PUNCT && value < (if mode == MODE_DIGIT then 16 else 32)
    requires GetCharacter(TableOf(mode), value).Text?
    ensures var t := Token(value, -(ModeWidth(mode) as int));
      LatchTarget(mode, t) > MODE_PUNCT && !IsShift(mode, MODE_PUNCT, t) && !IsShift(mode, MODE_UPPER, t)
  {
    if mode == MODE_UPPER {
    } else if mode == MODE_LOWER {
    } else if mode == MODE_DIGIT {
    } else if mode == MODE_MIXED {
    } else {
    }
  }

  lemma CodeStep(p: Place, value: nat)
    requires p.mode <= MODE_PUNCT && value < (if p.mode == MODE_DIGIT then 16 else 32) && !p.shifted
    requires GetCharacter(TableOf(p.mode), value).Text?
    ensures TokenStep(p, CreateSimple(value, ModeWidth(p.mode))) ==
            if p.mode == MODE_MIXED && value == 26 then p.(swapped := true) else p
  {
    CodeIsNoSwitch(p.mode, value);
    SimpleIs(value, ModeWidth(p.mode));
    hide LatchTarget, IsShift, GetCharacter, CreateSimple;
  }

  /** The bits a pending run of bytes will take. */
  function RunCost(count: nat): nat {
    if count == 0 then 0 else if count <= 31 then 10 + 8 * count else if count <= 62 then 20 + 8 * count
    else 21 + 8 * count
  }

  const MAX_RUN: nat := 2047 + 31

  /**
   * The state stands for the first `index` bytes: its tokens decode to them, except for the run of bytes that is
   * still pending, and leave the decoder in the state's mode; they decode to exactly them unless one of the tokens is
   * code 26 of MIXED; bitCount is what tokens and run will emit.
   */
  ghost predicate Good(s: EncodingState, text: seq<Byte>, index: nat) {
    Stands(s, text, index) && s.binaryShiftByteCount < MAX_RUN
  }

  ghost predicate Stands(s: EncodingState, text: seq<Byte>, index: nat) {
    && s.mode <= MODE_PUNCT && s.binaryShiftByteCount <= index <= |text| && s.binaryShiftByteCount <= MAX_RUN
    && (s.binaryShiftByteCount > 0 ==> CanShiftBinary(TableOf(s.mode)))
    && AllFit(s.tokens, |text|) && Walk(s.tokens).mode == s.mode && !Walk(s.tokens).shifted
    && Encodes(TokensBits(s.tokens, text), In(UPPER), In(TableOf(s.mode)), text[..index - s.binaryShiftByteCount],
               !Swaps(s.tokens))
    && s.bitCount == |TokensBits(s.tokens, text)| + RunCost(s.binaryShiftByteCount)
  }

  lemma TokensMore(tokens: seq<Token>, t: Token, text: seq<Byte>)
    requires AllFit(tokens, |text|) && Fits(t, |text|)
    ensures AllFit(tokens + [t], |text|)
    ensures TokensBits(tokens + [t], text) == TokensBits(tokens, text) + TokenBits(t, text)
  {
    assert (tokens + [t])[..|tokens|] == tokens;
  }

  /** A token more, when no run is pending. */
  lemma GoodMore(s: EncodingState, text: seq<Byte>, index: nat, t: Token, mode: nat, index': nat, exact: bool)
    requires Good(s, text, index) && s.binaryShiftByteCount == 0 && Fits(t, |text|)
    requires mode <= MODE_PUNCT && index <= index' <= |text|
    requires Encodes(TokenBits(t, text), In(TableOf(s.mode)), In(TableOf(mode)), text[index..index'], exact)
    requires TokenStep(Walk(s.tokens), t) == Place(mode, false, Swaps(s.tokens) || !exact)
    ensures Good(EncodingState(s.tokens + [t], mode, 0, s.bitCount + |TokenBits(t, text)|), text, index')
  {
    hide Encodes, TokensBits, TokenBits, Walk, TokenStep, Fits;
    TokensMore(s.tokens, t, text);
    WalkMore(s.tokens, t);
    EncodesJoin(TokensBits(s.tokens, text), TokenBits(t, text), In(UPPER), In(TableOf(s.mode)), In(TableOf(mode)),
                text[..index], text[index..index'], !Swaps(s.tokens), exact);
    assert text[..index] + text[index..index'] == text[..index'];
  }

  lemma SimpleBits(value: nat, n: nat, text: seq<Byte>)
    requires value < 32768 && 1 <= n <= 14
    ensures Fits(CreateSimple(value, n), |text|)
    ensures TokenBits(CreateSimple(value, n), text) == MsbBits(value, n)
  {
    ShortKeeps(value);
    ShortKeeps(-(n as int));
  }

  // ----- transitions

  function LatchAndAppend(state: EncodingState, mode: nat, value: nat): EncodingState {
    var latch := LatchTable(state.mode, mode);
    var latched := mode != state.mode;
    var tokens := if latched then state.tokens + [CreateSimple(latch % 65536, latch / 65536)] else state.tokens;
    var bitCount := if latched then state.bitCount + latch / 65536 else state.bitCount;
    EncodingState(tokens + [CreateSimple(value, ModeWidth(mode))], mode, 0, bitCount + ModeWidth(mode))
  }

  /** The code is one of the mode's characters or pairs, and it stands for these bytes. */
  ghost predicate CodeStands(mode: nat, value: nat, text: seq<Byte>) {
    && mode <= MODE_PUNCT && value < (if mode == MODE_DIGIT then 16 else 32)
    && GetCharacter(TableOf(mode), value).Text?
    && if CodeSwaps(mode, value) then text == [0x7d] else GetCharacter(TableOf(mode), value).chars == text
  }

  /** The one code that the decoder reads as another character than the encoder: 0x7e for 0x7d. */
  predicate CodeSwaps(mode: nat, value: nat) {
    mode == MODE_MIXED && value == 26
  }

  lemma CodeSimilar(mode: nat, value: nat, text: seq<Byte>)
    requires CodeStands(mode, value, text)
    ensures var chars := GetCharacter(TableOf(mode), value).chars;
      Similar(chars, text) && (chars == text <==> !CodeSwaps(mode, value))
  {
    if CodeSwaps(mode, value) {
      assert GetCharacter(MIXED, 26).chars == [0x7e];
    }
  }

  lemma CodeEncodes(mode: nat, value: nat, text: seq<Byte>)
    requires CodeStands(mode, value, text)
    ensures Encodes(MsbBits(value, ModeWidth(mode)), In(TableOf(mode)), In(TableOf(mode)), text,
                    !CodeSwaps(mode, value))
  {
    hide Moves, MsbBits, GetCharacter, Similar;
    CodeSimilar(mode, value, text);
    OneCode(TableOf(mode), TableOf(mode), value);
    EncodesIs(MsbBits(value, ModeWidth(mode)), In(TableOf(mode)), In(TableOf(mode)),
              GetCharacter(TableOf(mode), value).chars, text);
  }

  lemma LatchGood(state: EncodingState, text: seq<Byte>, index: nat, mode: nat)
    requires Good(state, text, index) && state.binaryShiftByteCount == 0 && mode <= MODE_PUNCT && mode != state.mode
    ensures var latch := LatchTable(state.mode, mode);
      Good(EncodingState(state.tokens + [CreateSimple(latch % 65536, latch / 65536)], mode, 0,
                         state.bitCount + latch / 65536), text, index)
  {
    hide Encodes, MsbBits, TokenBits, LatchTable, Good, TableOf, TokenStep, Walk;
    GoodBounds(state, text, index);
    LatchEncodes(state.mode, mode);
    LatchStep(Walk(state.tokens), mode);
    SimpleBits(LatchCodes(state.mode, mode), LatchBits(state.mode, mode), text);
    assert text[index..index] == [];
    GoodMore(state, text, index, CreateSimple(LatchCodes(state.mode, mode), LatchBits(state.mode, mode)), mode, index,
             true);
  }

  lemma GoodBounds(state: EncodingState, text: seq<Byte>, index: nat)
    requires Good(state, text, index)
    ensures state.mode <= MODE_PUNCT && state.binaryShiftByteCount <= index <= |text|
    ensures state.binaryShiftByteCount < MAX_RUN
    ensures state.binaryShiftByteCount > 0 ==> CanShiftBinary(TableOf(state.mode))
    ensures Walk(state.tokens) == Place(state.mode, false, Swaps(state.tokens))
  {
  }

  lemma LatchAndAppendGood(state: EncodingState, text: seq<Byte>, index: nat, mode: nat, value: nat, index': nat)
    requires Good(state, text, index) && state.binaryShiftByteCount == 0 && index <= index' <= |text|
    requires CodeStands(mode, value, text[index..index'])
    ensures Good(LatchAndAppend(state, mode, value), text, index')
  {
    hide Encodes, MsbBits, TokenBits, LatchTable, Good, TableOf, TokenStep, Walk;
    var latch := LatchTable(state.mode, mode);
    var latched := if mode == state.mode then state
                   else EncodingState(state.tokens + [CreateSimple(latch % 65536, latch / 65536)], mode, 0,
                                      state.bitCount + latch / 65536);
    if mode != state.mode {
      LatchGood(state, text, index, mode);
    }
    CodeEncodes(mode, value, text[index..index']);
    SimpleBits(value, ModeWidth(mode), text);
    GoodBounds(latched, text, index);
    CodeStep(Walk(latched.tokens), value);
    GoodMore(latched, text, index, CreateSimple(value, ModeWidth(mode)), mode, index', !CodeSwaps(mode, value));
  }

  function ShiftAndAppend(state: EncodingState, mode: nat, value: nat): EncodingState {
    var thisModeBitCount := ModeWidth(state.mode);
    var shift := CreateSimple(ShiftTable(state.mode, mode), thisModeBitCount);
    EncodingState(state.tokens + [shift] + [CreateSimple(value, 5)], state.mode, 0,
                  state.bitCount + thisModeBitCount + 5)
  }

  /** Every entry of the shift table takes the decoder to its mode for one code. */
  lemma ShiftEncodes(from: nat, to: nat, value: nat, text: seq<Byte>)
    requires from <= MODE_PUNCT && ShiftTable(from, to) >= 0 && CodeStands(to, value, text)
    ensures ShiftTable(from, to) < 32
    ensures Encodes(MsbBits(ShiftTable(from, to), ModeWidth(from)) + MsbBits(value, 5), In(TableOf(from)),
                    In(TableOf(from)), text, true)
  {
    hide Moves, MsbBits;
    CodeSimilar(to, value, text);
    var t, u, chars := TableOf(from), TableOf(to), GetCharacter(TableOf(to), value).chars;
    OneCode(t, t, ShiftTable(from, to));
    OneCode(t, u, value);
    MovesJoin(MsbBits(ShiftTable(from, to), ModeWidth(from)), MsbBits(value, 5), In(t), (t, u), In(t), [], chars);
    assert [] + chars == chars;
    EncodesIs(MsbBits(ShiftTable(from, to), ModeWidth(from)) + MsbBits(value, 5), In(t), In(t), chars, text);
  }

  lemma ShiftAndAppendGood(state: EncodingState, text: seq<Byte>, index: nat, mode: nat, value: nat, index': nat)
    requires Good(state, text, index) && state.binaryShiftByteCount == 0 && index <= index' <= |text|
    requires ShiftTable(state.mode, mode) >= 0 && CodeStands(mode, value, text[index..index'])
    ensures Good(ShiftAndAppend(state, mode, value), text, index')
  {
    hide Encodes, MsbBits, TokenBits, TokensBits, TableOf, Walk, TokenStep, ShiftTable, GetCharacter, Similar, Fits;
    GoodBounds(state, text, index);
    var t, w := TableOf(state.mode), ModeWidth(state.mode);
    ShiftEncodes(state.mode, mode, value, text[index..index']);
    var shift, code := CreateSimple(ShiftTable(state.mode, mode), w), CreateSimple(value, 5);
    SimpleBits(ShiftTable(state.mode, mode), w, text);
    SimpleBits(value, 5, text);
    TokensMore(state.tokens, shift, text);
    TokensMore(state.tokens + [shift], code, text);
    WalkMore(state.tokens, shift);
    WalkMore(state.tokens + [shift], code);
    ShiftStep(Walk(state.tokens), mode, value);
    var b := MsbBits(ShiftTable(state.mode, mode), w) + MsbBits(value, 5);
    EncodesJoin(TokensBits(state.tokens, text), b, In(UPPER), In(t), In(t), text[..index], text[index..index'],
                !Swaps(state.tokens), true);
    Reassociate(TokensBits(state.tokens, text), MsbBits(ShiftTable(state.mode, mode), w), MsbBits(value, 5));
    assert text[..index] + text[index..index'] == text[..index'];
  }

  function EndBinaryShift(state: EncodingState, index: nat): EncodingState {
    var count := state.binaryShiftByteCount;
    if count == 0 then state
    else EncodingState(state.tokens + [CreateBinaryShift(index - count, count)], state.mode, 0, state.bitCount)
  }

  /** A run takes the bits that were counted for it. */
  lemma RunLength(s: seq<Byte>)
    requires 1 <= |s| <= MAX_RUN
    ensures |RunFrom(s, 0)| == RunCost(|s|)
  {
    hide MsbBits, ByteBits, RunFrom;
    if |s| <= 31 || |s| > 62 {
      HeadedRun(s, 0, |s|);
      RunEnd(s, HeaderBits(|s|, 0) + ByteBits(s[0..|s|]));
      ByteBitsLength(s[0..|s|]);
    } else {
      HeadedRun(s, 0, 31);
      HeadedRun(s, 31, |s|);
      RunEnd(s, HeaderBits(|s|, 31) + ByteBits(s[31..|s|]));
      ByteBitsLength(s[0..31]);
      ByteBitsLength(s[31..|s|]);
    }
  }

  lemma RunToken(text: seq<Byte>, start: nat, count: nat, t: Table)
    requires 1 <= count <= MAX_RUN && start + count <= |text| <= 32768 && CanShiftBinary(t)
    ensures Fits(CreateBinaryShift(start, count), |text|)
    ensures Encodes(TokenBits(CreateBinaryShift(start, count), text), In(t), In(t), text[start..start + count],
                    true)
    ensures |TokenBits(CreateBinaryShift(start, count), text)| == RunCost(count)
  {
    hide Moves, RunFrom;
    ShortKeeps(start);
    ShortKeeps(count);
    var run := text[start..start + count];
    RunMoves(t, run);
    RunLength(run);
    SimilarSelf(run);
    EncodesIs(RunFrom(run, 0), In(t), In(t), run, run);
  }

  /** Ending a run keeps what the state stands for. */
  lemma EndBinaryShiftGood(state: EncodingState, text: seq<Byte>, index: nat)
    requires Stands(state, text, index) && |text| <= 32768
    ensures Good(EndBinaryShift(state, index), text, index)
    ensures EndBinaryShift(state, index).binaryShiftByteCount == 0
    ensures EndBinaryShift(state, index).mode == state.mode
  {
    hide Encodes, TokenBits, TokensBits, TableOf, RunCost, Walk;
    var count := state.binaryShiftByteCount;
    if count > 0 {
      RunToken(text, index - count, count, TableOf(state.mode));
      var before := EncodingState(state.tokens, state.mode, 0, state.bitCount - RunCost(count));
      NoRun();
      assert Good(before, text, index - count);
      ShortKeeps(count);
      GoodMore(before, text, index - count, CreateBinaryShift(index - count, count), state.mode, index, true);
    }
  }

  lemma NoRun()
    ensures RunCost(0) == 0
  {
  }

  function AddBinaryShiftChar(state: EncodingState, index: nat): EncodingState {
    var latching := state.mode == MODE_PUNCT || state.mode == MODE_DIGIT;
    var latch := LatchTable(state.mode, MODE_UPPER);
    var tokens := if latching then state.tokens + [CreateSimple(latch % 65536, latch / 65536)] else state.tokens;
    var mode := if latching then MODE_UPPER else state.mode;
    var bitCount := if latching then state.bitCount + latch / 65536 else state.bitCount;
    var count := state.binaryShiftByteCount;
    var deltaBitCount := if count == 0 || count == 31 then 18 else if count == 62 then 9 else 8;
    var result := EncodingState(tokens, mode, count + 1, bitCount + deltaBitCount);
    if result.binaryShiftByteCount == 2047 + 31 then EndBinaryShift(result, index + 1) else result
  }

  /** One byte more in binary. */
  lemma AddBinaryShiftCharGood(state: EncodingState, text: seq<Byte>, index: nat)
    requires Good(state, text, index) && index < |text| <= 32768
    ensures Good(AddBinaryShiftChar(state, index), text, index + 1)
  {
    hide Encodes, TokenBits, TokensBits, LatchTable, EndBinaryShift, Walk;
    var latching := state.mode == MODE_PUNCT || state.mode == MODE_DIGIT;
    var latch := LatchTable(state.mode, MODE_UPPER);
    var latched := if latching then
                     EncodingState(state.tokens + [CreateSimple(latch % 65536, latch / 65536)], MODE_UPPER, 0,
                                   state.bitCount + latch / 65536)
                   else state;
    if latching {
      LatchGood(state, text, index, MODE_UPPER);
    }
    assert Good(latched, text, index) && latched.binaryShiftByteCount == state.binaryShiftByteCount;
    PendingMore(latched, text, index);
    var count := state.binaryShiftByteCount;
    var delta := if count == 0 || count == 31 then 18 else if count == 62 then 9 else 8;
    var result := EncodingState(latched.tokens, latched.mode, count + 1, latched.bitCount + delta);
    if count + 1 == 2047 + 31 {
      EndBinaryShiftGood(result, text, index + 1);
    }
  }

  lemma PendingMore(state: EncodingState, text: seq<Byte>, index: nat)
    requires Good(state, text, index) && index < |text| && CanShiftBinary(TableOf(state.mode))
    ensures var count := state.binaryShiftByteCount;
      var delta := if count == 0 || count == 31 then 18 else if count == 62 then 9 else 8;
      Stands(EncodingState(state.tokens, state.mode, count + 1, state.bitCount + delta), text, index + 1)
  {
    hide Encodes, TokenBits, TokensBits, TableOf, Walk;
  }

  // ----- comparing states

  function CalculateBinaryShiftCost(state: EncodingState): nat {
    if state.binaryShiftByteCount > 62 then 21
    else if state.binaryShiftByteCount > 31 then 20
    else if state.binaryShiftByteCount > 0 then 10
    else 0
  }

  /** The cost of a pending run is what it takes beyond eight bits for each of its bytes. */
  lemma ShiftCostIs(state: EncodingState)
    ensures CalculateBinaryShiftCost(state) + 8 * state.binaryShiftByteCount == RunCost(state.binaryShiftByteCount)
  {
  }

  predicate IsBetterThanOrEqualTo(state: EncodingState, other: EncodingState) {
    var latched := state.bitCount + LatchBits(state.mode, other.mode);
    var newModeBitCount :=
      if state.binaryShiftByteCount < other.binaryShiftByteCount then
        latched + CalculateBinaryShiftCost(other) - CalculateBinaryShiftCost(state)
      else if state.binaryShiftByteCount > other.binaryShiftByteCount && other.binaryShiftByteCount > 0 then
        latched + 10
      else latched;
    newModeBitCount <= other.bitCount
  }

  lemma BetterReflexive(s: EncodingState)
    requires s.mode <= MODE_PUNCT
    ensures IsBetterThanOrEqualTo(s, s)
  {
  }

  lemma LatchLengths(from: nat, to: nat)
    requires from <= MODE_PUNCT && to <= MODE_PUNCT
    ensures LatchBits(from, to) ==
            if from == to then 0
            else if from == MODE_DIGIT then if to == MODE_UPPER then 4 else if to == MODE_PUNCT then 14 else 9
            else if from == MODE_LOWER && to == MODE_UPPER then 9
            else if from <= MODE_LOWER then if to == MODE_PUNCT then 10 else 5
            else if from == MODE_MIXED then if to == MODE_DIGIT then 10 else 5
            else if to == MODE_UPPER then 5 else 10
  {
  }

  lemma LatchTriangle(a: nat, b: nat, c: nat)
    requires a <= MODE_PUNCT && b <= MODE_PUNCT && c <= MODE_PUNCT
    ensures LatchBits(a, c) <= LatchBits(a, b) + LatchBits(b, c)
  {
    LatchLengths(a, c);
    LatchLengths(a, b);
    LatchLengths(b, c);
    hide LatchBits;
  }

  /** The comparison of states is transitive. */
  lemma BetterTransitive(a: EncodingState, b: EncodingState, c: EncodingState)
    requires a.mode <= MODE_PUNCT && b.mode <= MODE_PUNCT && c.mode <= MODE_PUNCT
    requires IsBetterThanOrEqualTo(a, b) && IsBetterThanOrEqualTo(b, c)
    ensures IsBetterThanOrEqualTo(a, c)
  {
    LatchTriangle(a.mode, b.mode, c.mode);
    hide LatchBits;
  }

  lemma BetterIsShorter(a: EncodingState, b: EncodingState)
    requires a.mode <= MODE_PUNCT && b.mode <= MODE_PUNCT && IsBetterThanOrEqualTo(a, b)
    ensures a.bitCount <= b.bitCount
  {
  }
}
