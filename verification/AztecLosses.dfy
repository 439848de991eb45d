// Two texts of the Aztec encoder that do not survive: a closing brace comes back as a tilde
// (zxing-core/src/aztec/AZHighLevelEncoder.cpp:86-93 against AZDecoder.cpp:47-51), and ten letters in words of twelve
// bits make the decoder read past the end of the message (zxing-core/src/BitArray.h:167-176).
module AztecLosses {
  import opened BitOps
  import opened BitStream
  import opened BitOutput
  import opened CanonicalCode
  import opened BitArrays
  import opened AztecStuffing
  import opened AztecDecoder
  import opened AztecCodes
  import opened AztecTokens
  import opened AztecStates
  import opened AztecEncoder
  import opened AztecMessage
  import opened AztecLayers
  import opened AztecRoundTrip
  import opened Options
  import opened GenericGF
  import opened ErrorPattern
  import opened ErrorCorrection
  import opened ReedSolomonEncoder

  // ----- a closing brace

  const BRACE: seq<Byte> := [0x7d]

  /** The ways of writing the brace: latched to MIXED, latched or shifted to PUNCT, and in binary. */
  const IN_MIXED := EncodingState([Token(29, -5), Token(26, -5)], MODE_MIXED, 0, 10)
  const IN_PUNCT := EncodingState([Token(958, -10), Token(30, -5)], MODE_PUNCT, 0, 15)
  const SHIFTED := EncodingState([Token(0, -5), Token(30, -5)], MODE_UPPER, 0, 10)
  const IN_BINARY := EncodingState([], MODE_UPPER, 1, 18)

  lemma BraceCodes()
    ensures CharMap(MODE_UPPER, 0x7d) == 0 && CharMap(MODE_LOWER, 0x7d) == 0 && CharMap(MODE_DIGIT, 0x7d) == 0
    ensures CharMap(MODE_MIXED, 0x7d) == 26 && CharMap(MODE_PUNCT, 0x7d) == 30
  {
    assert MIXED_TABLE[27] == 0x7f && MIXED_TABLE[26] == 0x7d && PUNCT_TABLE[30] == 125;
  }

  lemma BraceInMixed()
    ensures ModeStates(START, 0x7d, 0, MODE_MIXED) == [IN_MIXED]
  {
    BraceCodes();
    SimpleIs(29, 5);
    SimpleIs(26, 5);
    hide CharMap, CreateSimple;
    assert LatchAndAppend(START, MODE_MIXED, 26).tokens == [Token(29, -5), Token(26, -5)];
  }

  lemma BraceInPunct()
    ensures ModeStates(START, 0x7d, 0, MODE_PUNCT) == [IN_PUNCT, SHIFTED]
  {
    BraceCodes();
    SimpleIs(958, 10);
    SimpleIs(30, 5);
    SimpleIs(0, 5);
    hide CharMap, CreateSimple;
    assert LatchAndAppend(START, MODE_PUNCT, 30).tokens == [Token(958, -10), Token(30, -5)];
    assert ShiftAndAppend(START, MODE_PUNCT, 30).tokens == [Token(0, -5), Token(30, -5)];
  }

  lemma BraceStates()
    ensures CharStates(START, 0x7d, 0) == [IN_MIXED, IN_PUNCT, SHIFTED, IN_BINARY]
  {
    BraceInMixed();
    BraceInPunct();
    BraceCodes();
    hide CharMap;
    assert CodeStates(START, 0x7d, 0, MODE_PUNCT + 1) == [];
    assert CodeStates(START, 0x7d, 0, MODE_PUNCT) == [IN_PUNCT, SHIFTED];
    assert CodeStates(START, 0x7d, 0, MODE_MIXED) == [IN_MIXED, IN_PUNCT, SHIFTED];
    assert CodeStates(START, 0x7d, 0, MODE_DIGIT) == [IN_MIXED, IN_PUNCT, SHIFTED];
    assert CodeStates(START, 0x7d, 0, MODE_LOWER) == [IN_MIXED, IN_PUNCT, SHIFTED];
    assert BinaryStates(START, 0x7d, 0) == [IN_BINARY];
  }

  /** The latch to PUNCT is no better than the latch to MIXED; the others are kept. */
  lemma BracePruned()
    ensures Simplified([IN_MIXED, IN_PUNCT, SHIFTED, IN_BINARY]) == [IN_MIXED, SHIFTED, IN_BINARY]
  {
    var all := [IN_MIXED, IN_PUNCT, SHIFTED, IN_BINARY];
    assert all[..3] == [IN_MIXED, IN_PUNCT, SHIFTED] && all[..3][..2] == [IN_MIXED, IN_PUNCT]
           && all[..3][..2][..1] == [IN_MIXED] && all[..3][..2][..1][..0] == [];
    assert Merged([], IN_MIXED, 0) == [IN_MIXED];
    assert Merged([IN_MIXED], IN_PUNCT, 0) == [IN_MIXED];
    assert Merged([IN_MIXED], SHIFTED, 1) == [IN_MIXED, SHIFTED];
    assert Merged([IN_MIXED], SHIFTED, 0) == [IN_MIXED, SHIFTED];
    assert Merged([IN_MIXED, SHIFTED], IN_BINARY, 2) == [IN_MIXED, SHIFTED, IN_BINARY];
    assert Merged([IN_MIXED, SHIFTED], IN_BINARY, 1) == [IN_MIXED, SHIFTED, IN_BINARY];
    assert Merged([IN_MIXED, SHIFTED], IN_BINARY, 0) == [IN_MIXED, SHIFTED, IN_BINARY];
    hide Merged;
    assert Simplified(all[..3][..2][..1][..0]) == [];
    assert Simplified(all[..3][..2][..1]) == [IN_MIXED];
    assert Simplified(all[..3][..2]) == [IN_MIXED];
    assert Simplified(all[..3]) == [IN_MIXED, SHIFTED];
  }

  lemma BraceFound()
    ensures Found(BRACE) == [IN_MIXED, SHIFTED, IN_BINARY]
  {
    BraceStates();
    BracePruned();
    var all := [IN_MIXED, IN_PUNCT, SHIFTED, IN_BINARY];
    hide CharStates, Simplified;
    assert [START][..0] == [] && AllCharStates([START][..0], 0x7d, 0) == [];
    assert AllCharStates([START], 0x7d, 0) == [] + all == all;
    assert PairCode(BRACE, 0) == 0 && BRACE[0] == 0x7d && |BRACE| == 1;
    hide PairCode, AllCharStates;
    assert SimplifiedIfMany(all) == [IN_MIXED, SHIFTED, IN_BINARY];
    hide SimplifiedIfMany;
    assert Search(BRACE, 1, SimplifiedIfMany(all)) == SimplifiedIfMany(all);
    assert Search(BRACE, 0, [START]) == Search(BRACE, 1, SimplifiedIfMany(all));
  }

  /** Of the two shortest states that are left MIXED comes first, and its token is the one that is read as 0x7e. */
  lemma BraceSwaps()
    ensures Found(BRACE) == [IN_MIXED, SHIFTED, IN_BINARY]
    ensures ChosenTokens(BRACE) == [Token(29, -5), Token(26, -5)] && Swaps(ChosenTokens(BRACE))
  {
    BraceFound();
    TokensSwap();
    hide Found, Swaps;
    var found := [IN_MIXED, SHIFTED, IN_BINARY];
    assert found[..2] == [IN_MIXED, SHIFTED] && found[..2][..1] == [IN_MIXED];
    assert FirstShortest(found[..2][..1]) == IN_MIXED && FirstShortest(found[..2]) == IN_MIXED;
  }

  lemma TokensSwap()
    ensures Swaps([Token(29, -5), Token(26, -5)])
  {
    var tokens := [Token(29, -5), Token(26, -5)];
    assert tokens[..1] == [Token(29, -5)] && tokens[..1][..0] == [];
    assert Walk(tokens[..1][..0]) == Place(MODE_UPPER, false, false);
    assert Walk(tokens[..1]) == Place(MODE_MIXED, false, false);
    assert GetCharacter(MIXED, 26).Text?;
    CodeIsNoSwitch(MODE_MIXED, 26);
  }

  /** A closing brace is sent and a tilde is read. */
  method BraceIsLost() returns (bits: Bits, items: seq<Item>)
    ensures items == [Char(0x7e)]
  {
    hide Decode, Found, ChosenTokens, Swaps, TokensBits, AllFit, Moves;
    ghost var decoded, table;
    bits, decoded, table := Encode(BRACE);
    BraceSwaps();
    assert SameByte(decoded[0], BRACE[0]);
    assert decoded == [0x7e];
    var r := DecodeContent(bits);
    items := r.items;
  }

  // ----- ten letters in words of twelve bits

  function Letters(n: nat): seq<Byte> {
    seq(n, _ => 65)
  }

  /** The only state after n letters A: n codes of five bits in UPPER. */
  function LettersState(n: nat): EncodingState {
    EncodingState(seq(n, _ => Token(2, -5)), MODE_UPPER, 0, 5 * n)
  }

  lemma LetterCodes()
    ensures CharMap(MODE_UPPER, 65) == 2 && CharMap(MODE_LOWER, 65) == 0 && CharMap(MODE_DIGIT, 65) == 0
    ensures CharMap(MODE_MIXED, 65) == 0 && CharMap(MODE_PUNCT, 65) == 0
  {
    NoLetterInMixed();
    NoLetterInPunct();
    hide LastIndex;
  }

  lemma NoLetterInMixed()
    ensures LastIndex(MIXED_TABLE, |MIXED_TABLE|, 65) == 0
  {
    NotThere(MIXED_TABLE, 65);
    hide LastIndex;
  }

  lemma NoLetterInPunct()
    ensures LastIndex(PUNCT_TABLE, |PUNCT_TABLE|, 65) == 0
  {
    NotThere(PUNCT_TABLE, 65);
    hide LastIndex;
  }

  lemma NotThere(table: seq<Byte>, ch: Byte)
    requires ch !in table
    ensures LastIndex(table, |table|, ch) == 0
  {
    hide LastIndex;
  }

  lemma LetterStates(k: nat)
    ensures CharStates(LettersState(k), 65, k) == [LettersState(k + 1)]
  {
    LetterCodes();
    SimpleIs(2, 5);
    hide CharMap, CreateSimple;
    var s := LettersState(k);
    assert LatchAndAppend(s, MODE_UPPER, 2).tokens == LettersState(k + 1).tokens;
    assert ModeStates(s, 65, k, MODE_UPPER) == [LettersState(k + 1)];
    assert CodeStates(s, 65, k, MODE_PUNCT) == [];
    assert CodeStates(s, 65, k, MODE_MIXED) == [];
    assert CodeStates(s, 65, k, MODE_DIGIT) == [];
    assert CodeStates(s, 65, k, MODE_LOWER) == [];
    assert BinaryStates(s, 65, k) == [];
  }

  /** The search has a single state all the way. */
  lemma {:induction false} LettersSearch(n: nat, k: nat)
    requires k <= n
    ensures Search(Letters(n), k, [LettersState(k)]) == [LettersState(n)]
    decreases n - k
  {
    hide CharStates, LettersState, PairCode, Letters, AllCharStates, AllPairStates, Simplified;
    LettersAre(n);
    if k < n {
      LettersSearch(n, k + 1);
      LettersRound(k);
      NoPair(n, k);
      assert SimplifiedIfMany([LettersState(k + 1)]) == [LettersState(k + 1)];
    }
  }

  lemma LettersAre(n: nat)
    ensures |Letters(n)| == n && forall k :: 0 <= k < n ==> Letters(n)[k] == 65
  {
  }

  lemma NoPair(n: nat, k: nat)
    requires k < n
    ensures |Letters(n)| == n && PairCode(Letters(n), k) == 0
  {
  }

  lemma LettersRound(k: nat)
    ensures AllCharStates([LettersState(k)], 65, k) == [LettersState(k + 1)]
  {
    LetterStates(k);
    hide CharStates, LettersState;
    var states := [LettersState(k)];
    assert states[..0] == [] && AllCharStates(states[..0], 65, k) == [];
    assert AllCharStates(states, 65, k) == [] + [LettersState(k + 1)];
  }

  lemma LettersFound(n: nat)
    ensures Found(Letters(n)) == [LettersState(n)]
    ensures ChosenTokens(Letters(n)) == seq(n, _ => Token(2, -5))
  {
    assert START.tokens == LettersState(0).tokens;
    LettersSearch(n, 0);
    hide Search;
  }

  /** Their bits: in every five only the fourth is set. */
  function LetterBits(n: nat): Bits {
    seq(5 * n, i requires 0 <= i => i % 5 == 3)
  }

  lemma OneLetter()
    ensures MsbBits(2, 5) == [false, false, false, true, false]
  {
  }

  lemma {:induction false} LettersBits(n: nat, text: seq<Byte>)
    ensures var tokens := seq(n, _ => Token(2, -5));
      AllFit(tokens, |text|) && TokensBits(tokens, text) == LetterBits(n)
  {
    hide MsbBits;
    var tokens := seq(n, _ => Token(2, -5));
    if n > 0 {
      LettersBits(n - 1, text);
      OneLetter();
      assert tokens[..n - 1] == seq(n - 1, _ => Token(2, -5));
      assert LetterBits(n) == LetterBits(n - 1) + [false, false, false, true, false];
    }
  }

  /** No word of twelve bits is stuffed, and the last one takes in two bits and ten padding ones. */
  lemma LettersPadding()
    ensures Padding(LetterBits(10), 0, 12) == 10
    ensures |Stuffed(LetterBits(10), 0, 12)| == 5
  {
    var b := LetterBits(10);
    PlainLetters(0);
    PlainLetters(12);
    PlainLetters(24);
    PlainLetters(36);
    PlainLetters(48);
    hide Advance, WordFor;
    assert Padding(b, 60, 12) == 10 && Stuffed(b, 60, 12) == [];
    assert Padding(b, 48, 12) == 10 && |Stuffed(b, 48, 12)| == 1;
    assert Padding(b, 36, 12) == 10 && |Stuffed(b, 36, 12)| == 2;
    assert Padding(b, 24, 12) == 10 && |Stuffed(b, 24, 12)| == 3;
    assert Padding(b, 12, 12) == 10 && |Stuffed(b, 12, 12)| == 4;
  }

  lemma PlainLetters(i: nat)
    requires i in {0, 12, 24, 36, 48}
    ensures Advance(LetterBits(10), i, 12) == 12
  {
    var b := LetterBits(10);
    LetterAt(i);
    LetterAt(i + 1);
    LetterAt(48);
    if i < 48 {
      LetterAt(i + 2);
      LetterAt(i + 3);
      LetterAt(i + 4);
    }
    hide LetterBits;
    if i < 48 {
      MixedHead(b, i, if i == 0 then 3 else if i == 12 then 1 else if i == 24 then 4 else 2, 0);
    } else {
      MixedHead(b, i, 0, 1);
    }
  }

  lemma LetterAt(i: nat)
    requires i < 50
    ensures |LetterBits(10)| == 50 && LetterBits(10)[i] == (i % 5 == 3)
  {
  }

  /** A word with a one and a zero among its first bits is not stuffed. */
  lemma MixedHead(b: Bits, i: nat, one: nat, zero: nat)
    requires one < 11 && zero < 11 && i + one < |b| && i + zero < |b| && b[i + one] && !b[i + zero]
    ensures Advance(b, i, 12) == 12
  {
    var head := WordAt(b, i, 12)[..11];
    assert head[one] == b[i + one] && head[zero] == b[i + zero];
    assert Ones(11)[zero] && !Zeros(11)[one];
  }

  lemma LettersExact(decoded: seq<Byte>)
    requires Similar(decoded, Letters(10))
    ensures decoded == Letters(10)
  {
  }

  /** What ten letters are encoded as; read with their ten padding ones they make the decoder overrun. */
  lemma TenLettersOverrun(bits: Bits, decoded: seq<Byte>, table: Table)
    requires EncodedAs(Letters(10), bits, decoded, table)
    ensures bits == LetterBits(10) && table == UPPER && decoded == Letters(10)
    ensures Moves(bits, In(UPPER), In(UPPER), Letters(10)) && Padding(bits, 0, 12) == 10
    ensures Decode(bits + Ones(10)) == Overran
  {
    hide Moves, Decode, Found, ChosenTokens, TokensBits, AllFit, Padding, Letters, LetterBits, Swaps;
    LettersFound(10);
    LettersBits(10, Letters(10));
    LettersPadding();
    LettersExact(decoded);
    MessageDecodes(bits, 10, table, decoded);
  }

  /** In a symbol of 23 layers or more ten letters are sent and never read, even without a single wrong bit. */
  method TenLettersAreLost(layers: nat) returns (sent: Bits, outcome: Outcome)
    requires 23 <= layers <= 32
    ensures outcome == Overran
  {
    hide EncodedAs, Carries, SymbolFor, Correctable, PaddingOverruns, LetterBits, Decode, Found, ChosenTokens, Swaps,
      Padding, Moves;
    var r;
    ghost var bits, decoded, table;
    r, outcome, bits, decoded, table := Deliver(Letters(10), DEFAULT_EC_PERCENT, layers, []);
    TenLettersOverrun(bits, decoded, table);
    TenLettersFit(layers);
    LettersNotEmpty();
    var t := r.value;
    sent := t.sent;
    NoNoise(t, bits);
    LargeWords(t, bits, layers);
  }

  lemma LettersNotEmpty()
    ensures Letters(10) != []
  {
  }

  lemma TenLettersFit(layers: nat)
    requires 23 <= layers <= 32
    ensures SymbolFor(LetterBits(10), DEFAULT_EC_PERCENT, layers) == Some(Symbol(false, layers))
  {
    LettersFit(Symbol(false, layers));
    assert EccBits(50, 33) == 27;
    hide FitsSymbol;
  }

  lemma LettersFit(s: Symbol)
    requires Possible(s) && !s.compact && s.layers >= 23
    ensures FitsSymbol(LetterBits(10), 27, s)
  {
    LettersPadding();
    WordSizes(s);
    AtLeast(s);
    hide Stuffed, LetterBits, TotalBits, Pow2, WordSize;
    assert StuffedSize(LetterBits(10), 12) == 60;
    hide StuffedSize;
    assert TotalBits(s) % 12 < 12;
  }

  lemma AtLeast(s: Symbol)
    requires Possible(s) && !s.compact && s.layers >= 23
    ensures TotalBits(s) >= 2576
  {
    MulMonotone(23, s.layers, 112 + 16 * s.layers);
  }

  /** Without errors everything can be corrected. */
  lemma NoNoise(t: Transmission, bits: Bits)
    requires Carries(t, bits)
    ensures Correctable(t, Flipped(t.sent, []))
  {
    hide Stuffed, Words, IsCodeword, IsField, InTable, WordField, TotalBits;
    assert Flipped(t.sent, []) == t.sent;
    var words := Words(t.sent, WordSize(t.symbol));
    DistanceZero(words, words, |words|);
  }

  lemma LargeWords(t: Transmission, bits: Bits, layers: nat)
    requires t.symbol == Symbol(false, layers) && 23 <= layers <= 32 && Padding(bits, 0, 12) == 10
    ensures PaddingOverruns(t, bits, UPPER)
  {
    hide Padding;
  }
}
