// A text from the encoder through the choice of a symbol, stuffing, check words and errors back to the decoder.
module AztecRoundTrip {
  import opened BitOps
  import opened BitStream
  import opened BitOutput
  import opened CanonicalCode
  import opened BitArrays
  import opened AztecStuffing
  import opened AztecDecoder
  import opened AztecCodes
  import opened AztecStates
  import opened AztecEncoder
  import opened AztecMessage
  import opened AztecLayers
  import opened GenericGF
  import opened ConcreteFields
  import opened Options
  import opened AztecTokens
  import opened ReedSolomonEncoder
  import opened ErrorPattern
  import opened ErrorCorrection

  // ----- the padding at the end of a message

  lemma OnesBits(n: nat)
    requires n <= 5
    ensures Ones(n) == MsbBits(Pow2(n) - 1, n)
    ensures Pow2(4) == 16 && Pow2(5) == 32
  {
    FromOnes(n);
    MsbBitsFrom(Ones(n));
    SmallPowers();
  }

  lemma SplitOnes(k: nat, n: nat)
    requires n <= k
    ensures Ones(k) == Ones(n) + Ones(k - n)
  {
  }

  /** One padding code: what the all-ones code does in each table. */
  lemma OnesStep(total: nat, k: nat, latch: Table, t: Table, items: seq<Item>)
    requires t != BINARY && Width(t) <= k <= total
    ensures var next := if t == DIGIT then (DIGIT, UPPER) else if t == PUNCT then In(UPPER) else (t, BINARY);
      DecodeFrom(total, Ones(k), State(latch, t, items)) ==
      DecodeFrom(total, Ones(k - Width(t)), State(next.0, next.1, items))
  {
    hide DecodeFrom, MsbBits, Moves, Pow2;
    var n := Width(t);
    OnesBits(n);
    SplitOnes(k, n);
    var code := if t == DIGIT then 15 else 31;
    OneCode(latch, t, code);
    var next := if t == DIGIT then (DIGIT, UPPER) else if t == PUNCT then In(UPPER) else (t, BINARY);
    MovesUse(MsbBits(code, n), (latch, t), next, [], total, Ones(k - n), items);
    assert items + Chars([]) == items;
  }

  /** Eleven ones in binary shift ask for 31 bytes that are not there. */
  lemma OnesInBinary(total: nat, k: nat, latch: Table, items: seq<Item>)
    requires 5 <= k <= 12 && total >= 8 && total >= k
    ensures DecodeFrom(total, Ones(k), State(latch, BINARY, items)) == Overran
  {
    hide DecodeFrom, MsbBits, Pow2;
    DecodeStep(total, Ones(k), State(latch, BINARY, items));
    OnesBits(5);
    SplitOnes(k, 5);
    TakeBits(total, 31, 5, Ones(k - 5));
    NoByte(total, k - 5, State(latch, BINARY, items));
  }

  lemma NoByte(total: nat, k: nat, s: State)
    requires k < 8 <= total
    ensures TakeBytes(total, 31, Ones(k), s) == RoundOverran
  {
  }

  lemma TooFew(total: nat, bits: Bits, s: State)
    requires |bits| < Width(s.shift)
    ensures DecodeFrom(total, bits, s) == Decoded(s.items)
  {
    hide DecodeRound;
  }

  /**
   * Fewer than twelve padding ones are harmless, unless there are ten or eleven of them after a message that ends in
   * a table with binary shift: then the decoder reads past the end of the bits.
   */
  lemma PaddingDecodes(total: nat, k: nat, t: Table, items: seq<Item>)
    requires t != BINARY && k < 12 && total >= k
    ensures DecodeFrom(total, Ones(k), State(t, t, items)) ==
            if k >= 10 && t != DIGIT && t != PUNCT then Overran else Decoded(items)
  {
    hide DecodeFrom;
    if k < Width(t) {
      TooFew(total, Ones(k), State(t, t, items));
    } else {
      OnesStep(total, k, t, t, items);
      if t == DIGIT {
        if k >= 9 {
          OnesStep(total, k - 4, DIGIT, UPPER, items);
          TooFew(total, Ones(k - 9), State(UPPER, BINARY, items));
        } else {
          TooFew(total, Ones(k - 4), State(DIGIT, UPPER, items));
        }
      } else if t == PUNCT {
        if k >= 10 {
          OnesStep(total, k - 5, UPPER, UPPER, items);
          TooFew(total, Ones(k - 10), State(UPPER, BINARY, items));
        } else {
          TooFew(total, Ones(k - 5), State(UPPER, UPPER, items));
        }
      } else if k >= 10 {
        OnesInBinary(total, k - 5, t, items);
      } else {
        TooFew(total, Ones(k - 5), State(t, BINARY, items));
      }
    }
  }

  /** A message followed by its padding. */
  lemma MessageDecodes(bits: Bits, k: nat, t: Table, decoded: seq<Byte>)
    requires Moves(bits, In(UPPER), In(t), decoded) && t != BINARY && k < 12
    ensures Decode(bits + Ones(k)) ==
            if k >= 10 && t != DIGIT && t != PUNCT then Overran else Decoded(Chars(decoded))
  {
    hide DecodeFrom, Moves;
    var total := |bits| + k;
    MovesUse(bits, In(UPPER), In(t), decoded, total, Ones(k), []);
    PaddingDecodes(total, k, t, [] + Chars(decoded));
    assert [] + Chars(decoded) == Chars(decoded);
  }

  // ----- the whole way

  /** The bits that do not belong to a whole word come first. */
  function Lead(n: nat, w: nat): (r: nat)
    requires w > 0
    ensures r <= n && r == n % w
  {
    ModBound(n, w);
    n % w
  }

  /** The words of a message, after its leading bits. */
  function Words(b: Bits, w: nat): seq<nat>
    requires w > 0
  {
    WordsOf(b[Lead(|b|, w)..], w)
  }

  /** The sent and the received words differ in at most half as many places as there are check words. */
  ghost predicate FewErrors(sent: Bits, received: Bits, w: nat, numData: nat)
    requires w > 0
  {
    var codeword, words := Words(sent, w), Words(received, w);
    |words| == |codeword| && numData <= |codeword| &&
    Distance(codeword, words, |codeword|) <= (|codeword| - numData) / 2
  }

  lemma ModBound(n: nat, w: nat)
    requires w > 0
    ensures 0 <= n % w <= n
  {
    if n < w {
      SmallMod(n, w);
    }
  }

  /** Check words: the words of what is sent are a code word that starts with the stuffed words. */
  method Protect(f: Field, ghost bits: Bits, stuffed: Bits, wordSize: nat, totalBits: nat)
    returns (ok: bool, sent: Bits, numData: nat)
    requires 2 < wordSize <= 12 && WordField(f, wordSize) && InTable(f, totalBits / wordSize)
    requires stuffed == WordsBits(Stuffed(bits, 0, wordSize), wordSize) && |stuffed| <= totalBits
    ensures numData == |Stuffed(bits, 0, wordSize)|
    ensures ok <==> 0 < |stuffed| <= totalBits - wordSize
    ensures ok ==> |sent| == totalBits && numData <= totalBits / wordSize
    ensures ok ==> Checked(f, Stuffed(bits, 0, wordSize), totalBits / wordSize, wordSize, Words(sent, wordSize))
  {
    hide Stuffed, WordsOf, WordsBits, IsField, WordField, InTable, IsCodeword, Words;
    ghost var data := Stuffed(bits, 0, wordSize);
    StuffedBelow(bits, wordSize);
    WordsLength(data, wordSize);
    WordsRoundTrip(data, wordSize);
    ExactDivision(|data|, wordSize);
    numData := |stuffed| / wordSize;
    var messageBits := new BitArray();
    ghost var codeword;
    ok, codeword := GenerateCheckWords(f, stuffed, totalBits, wordSize, messageBits);
    sent := messageBits.bits;
    if ok {
      CheckCount(totalBits, |stuffed|, wordSize);
      SentWords(sent, codeword, wordSize);
    }
  }

  lemma SentWords(sent: Bits, codeword: seq<nat>, w: nat)
    requires w > 0 && Below(codeword, w) && sent == Zeros(|sent| % w) + WordsBits(codeword, w)
    ensures Words(sent, w) == codeword
  {
    hide WordsOf, WordsBits, Below;
    WordsRoundTrip(codeword, w);
    ModBound(|sent|, w);
    assert sent[|sent| % w..] == WordsBits(codeword, w);
  }

  lemma ExactDivision(n: nat, w: nat)
    requires w > 0
    ensures (w * n) % w == 0 && (w * n) / w == n
  {
    assert w * n == n * w;
    ModUnique(w * n, w, n, 0);
  }

  lemma StuffedBelow(bits: Bits, w: nat)
    requires w > 2
    ensures Below(Stuffed(bits, 0, w), w)
  {
    hide Stuffed, Unstuffed, Padding;
    Unstuffs(bits, 0, w);
  }

  /**
   * Correction and unstuffing of whatever was received: if the errors touch at most half as many words as there are
   * check words, the bits come back with fewer than w padding ones.
   */
  method CorrectReceived(f: Field, ghost bits: Bits, nbLayers: nat, ghost sent: Bits, numData: nat, received: Bits)
    returns (r: Correction)
    requires var w := CodewordSize(nbLayers);
      && WordField(f, w) && |received| >= w && InTable(f, |received| / w) && |received| / w < f.size
      && numData == |Stuffed(bits, 0, w)| <= |received| / w
      && Checked(f, Stuffed(bits, 0, w), |received| / w, w, Words(sent, w))
    ensures var w := CodewordSize(nbLayers);
      FewErrors(sent, received, w, numData) ==>
        r == Corrected(bits + Ones(Padding(bits, 0, w))) && Padding(bits, 0, w) < w
  {
    hide Stuffed, WordsOf, IsField, Padding, Unstuffed, AllAllowed, IsCodeword, Distance, CodewordSize, Words,
      ReceivedWords, Syndrome;
    ghost var w := WordSizeRange(nbLayers);
    ghost var codeword := Words(sent, w);
    Unstuffs(bits, 0, w);
    PaddingShort(bits, 0, w);
    assert bits[0..] == bits;
    OverBelow(f, codeword, w);
    SameWords(received, w);
    ghost var words;
    r, words := CorrectBits(f, nbLayers, numData, received);
    if FewErrors(sent, received, w, numData) {
      assert Within(f, codeword, Words(received, w), |Words(received, w)| - numData);
      assert words == codeword && codeword[..numData] == Stuffed(bits, 0, w);
    }
  }

  lemma WordSizeRange(nbLayers: nat) returns (w: nat)
    ensures w == CodewordSize(nbLayers) && 2 < w <= 12
  {
    w := CodewordSize(nbLayers);
  }

  lemma SameWords(received: Bits, w: nat)
    requires w > 0 && |received| >= w
    ensures ReceivedWords(received, w) == Words(received, w)
  {
    hide WordsOf;
    ModBound(|received|, w);
  }

  /** What a text is encoded to: Encode's bits, what they decode to, and the table they end in. */
  ghost predicate EncodedAs(text: seq<Byte>, bits: Bits, decoded: seq<Byte>, table: Table) {
    && |Found(text)| > 0 && AllFit(ChosenTokens(text), |text|) && bits == TokensBits(ChosenTokens(text), text)
    && table == TableOf(FirstShortest(Found(text)).mode) && Moves(bits, In(UPPER), In(table), decoded)
    && Similar(decoded, text) && (decoded == text <==> !Swaps(ChosenTokens(text)))
  }

  /** What is sent: in a symbol, over the field of its word size, some data words and check words. */
  datatype Transmission = Transmission(symbol: Symbol, f: GF, numData: nat, sent: Bits)

  /** The words of what is sent are a code word that starts with the stuffed words of these bits. */
  ghost predicate Carries(t: Transmission, bits: Bits) {
    && Possible(t.symbol) && |t.sent| == TotalBits(t.symbol)
    && var w := WordSize(t.symbol);
      && IsField(t.f) && WordField(t.f, w) && InTable(t.f, TotalBits(t.symbol) / w)
      && TotalBits(t.symbol) / w < t.f.size && t.numData == |Stuffed(bits, 0, w)|
      && Checked(t.f, Stuffed(bits, 0, w), TotalBits(t.symbol) / w, w, Words(t.sent, w))
  }

  lemma SomeBits(bits: Bits, t: Table, decoded: seq<Byte>)
    requires Moves(bits, In(UPPER), In(t), decoded) && bits == []
    ensures decoded == []
  {
    hide DecodeFrom, Moves;
    assert bits + [] == [];
    MovesUse(bits, In(UPPER), In(t), decoded, 0, [], []);
    TooFew(0, [], State(UPPER, UPPER, []));
    TooFew(0, [], State(t, t, [] + Chars(decoded)));
  }

  lemma NothingStuffed(bits: Bits, w: nat)
    requires w > 2
    ensures Stuffed(bits, 0, w) == [] <==> bits == []
  {
  }

  lemma EmptyText()
    ensures var text: seq<Byte> := [];
      |Found(text)| > 0 && ChosenTokens(text) == [] && TokensBits([], text) == []
  {
    assert Found([]) == [START];
    assert FirstShortest([START]) == START;
  }

  lemma FieldReaches(f: Field, w: nat, n: nat)
    requires f.size == Pow2(w) && f.generatorBase == 1 && n < Pow2(w)
    ensures WordField(f, w) && InTable(f, n)
  {
    TableRange(f);
  }

  /** A symbol that fits has room for a check word. */
  lemma RoomForCheckWord(total: nat, w: nat, numData: nat, eccBits: nat)
    requires 2 < w <= 12 && w * numData + eccBits <= total - total % w && eccBits >= 11
    ensures w * numData <= total - w
  {
    var q, r := total / w, total % w;
    assert total == q * w + r;
    if numData >= q {
      MulMonotone(q, numData, w);
      assert false;
    }
    MulMonotone(numData, q - 1, w);
    assert (q - 1) * w == q * w - w;
  }

  /**
   * The encoder's way from a text to the bits of a symbol. It fails exactly for an empty text and when no symbol fits.
   */
  method Send(text: seq<Byte>, minECCPercent: nat, userSpecifiedLayers: int)
    returns (r: Option<Transmission>, ghost bits: Bits, ghost decoded: seq<Byte>, ghost table: Table)
    requires |text| <= 32768
    ensures EncodedAs(text, bits, decoded, table)
    ensures r.Some? <==> text != [] && SymbolFor(bits, minECCPercent, userSpecifiedLayers).Some?
    ensures r.Some? ==> SymbolFor(bits, minECCPercent, userSpecifiedLayers) == Some(r.value.symbol)
    ensures r.Some? ==> Carries(r.value, bits)
  {
    hide IsField, Stuffed, Decode, Checked, Moves, WordField, InTable, Pow2, Words, SymbolFor, Found, ChosenTokens,
      TokensBits, Swaps, AllFit, WordsBits, TotalBits;
    var message;
    message, decoded, table := Encode(text);
    bits := message;
    var chosen, stuffedBits := ChooseSymbol(message, minECCPercent, userSpecifiedLayers);
    if chosen.None? {
      return None, bits, decoded, table;
    }
    var symbol := chosen.value;
    SymbolForFits(bits, minECCPercent, userSpecifiedLayers);
    WordSizes(symbol);
    var wordSize, totalBits := WordSize(symbol), TotalBits(symbol);
    var f := GetGFFromWordSize(wordSize);
    FieldReaches(f, wordSize, totalBits / wordSize);
    WordsLength(Stuffed(bits, 0, wordSize), wordSize);
    RoomForCheckWord(totalBits, wordSize, |Stuffed(bits, 0, wordSize)|, EccBits(|bits|, minECCPercent));
    var ok, sent, numData := Protect(f, bits, stuffedBits.bits, wordSize, totalBits);
    r := if ok then Some(Transmission(symbol, f, numData, sent)) else None;
    NothingStuffed(bits, wordSize);
    if text == [] {
      EmptyText();
    } else if bits == [] {
      SomeBits(bits, table, decoded);
      assert false;
    }
  }

  /** Received bits: some of those sent are flipped. */
  function Flipped(sent: Bits, noise: Bits): (received: Bits)
    ensures |received| == |sent|
  {
    seq(|sent|, i requires 0 <= i < |sent| => if i < |noise| then sent[i] != noise[i] else sent[i])
  }

  /** The reader overruns: ten or eleven padding ones after a message that ends in a table with binary shift. */
  predicate PaddingOverruns(t: Transmission, bits: Bits, table: Table) {
    Possible(t.symbol) && Padding(bits, 0, WordSize(t.symbol)) >= 10 && table != DIGIT && table != PUNCT
  }

  /** Few enough words are hit to be corrected. */
  ghost predicate Correctable(t: Transmission, received: Bits) {
    Possible(t.symbol) && FewErrors(t.sent, received, WordSize(t.symbol), t.numData)
  }

  /** The decoder's way: correct the words, unstuff them and decode the bits. */
  method Receive(t: Transmission, received: Bits, ghost bits: Bits, ghost decoded: seq<Byte>, ghost table: Table)
    returns (outcome: Outcome)
    requires Carries(t, bits) && |received| == |t.sent|
    requires Moves(bits, In(UPPER), In(table), decoded) && table != BINARY
    ensures Correctable(t, received) ==>
              outcome == if PaddingOverruns(t, bits, table) then Overran else Decoded(Chars(decoded))
  {
    hide IsField, Stuffed, FewErrors, Decode, IsCodeword, Padding, Moves, WordField, InTable, Pow2, Words, TotalBits;
    WordSizes(t.symbol);
    ghost var wordSize := WordSize(t.symbol);
    assert |received| >= wordSize by {
      AtLeastOneWord(t.symbol);
    }
    outcome := Overran;
    var corrected := CorrectReceived(t.f, bits, t.symbol.layers, t.sent, t.numData, received);
    if corrected.Corrected? {
      outcome := DecodeContent(corrected.bits);
    }
    if FewErrors(t.sent, received, wordSize, t.numData) {
      MessageDecodes(bits, Padding(bits, 0, wordSize), table, decoded);
    }
  }

  lemma AtLeastOneWord(s: Symbol)
    requires Possible(s)
    ensures TotalBits(s) >= 12
  {
    MulMonotone(1, s.layers, (if s.compact then 88 else 112) + 16 * s.layers);
  }

  lemma EncodedMoves(text: seq<Byte>, bits: Bits, decoded: seq<Byte>, table: Table)
    requires EncodedAs(text, bits, decoded, table)
    ensures Moves(bits, In(UPPER), In(table), decoded) && table != BINARY
    ensures |Found(text)| > 0 && (decoded == text <==> !Swaps(ChosenTokens(text)))
  {
    hide Moves, Found, ChosenTokens, Swaps, TokensBits, AllFit, Similar;
  }

  lemma CharsInjective(a: seq<Byte>, b: seq<Byte>)
    ensures Chars(a) == Chars(b) <==> a == b
  {
    if Chars(a) == Chars(b) {
      forall i | 0 <= i < |a| ensures a[i] == b[i] {
        assert Chars(a)[i] == Char(a[i]) && Chars(b)[i] == Char(b[i]);
      }
    }
  }

  /** Words of at most ten bits have at most nine padding ones. */
  lemma NoOverrun(t: Transmission, bits: Bits, table: Table)
    requires Carries(t, bits) && t.symbol.layers <= 22
    ensures !PaddingOverruns(t, bits, table)
  {
    hide Padding, Checked, IsField;
    WordSizes(t.symbol);
    PaddingShort(bits, 0, WordSize(t.symbol));
  }

  /**
   * A text survives the whole way: encoded, stuffed, put into the symbol that was asked for or the first that fits,
   * given check words, received with some bits flipped, corrected, unstuffed and decoded with its padding. If the
   * flipped bits lie in at most half as many words as there are check words, the outcome is what the text was encoded
   * as: the text itself unless code 26 of MIXED was used, or the overrun of the padding in words of twelve bits.
   */
  method Deliver(text: seq<Byte>, minECCPercent: nat, userSpecifiedLayers: int, noise: Bits)
    returns (r: Option<Transmission>, outcome: Outcome, ghost bits: Bits, ghost decoded: seq<Byte>, ghost table: Table)
    requires |text| <= 32768
    ensures EncodedAs(text, bits, decoded, table)
    ensures r.Some? <==> text != [] && SymbolFor(bits, minECCPercent, userSpecifiedLayers).Some?
    ensures r.Some? ==> SymbolFor(bits, minECCPercent, userSpecifiedLayers) == Some(r.value.symbol)
    ensures r.Some? ==> Carries(r.value, bits)
    ensures r.Some? && Correctable(r.value, Flipped(r.value.sent, noise)) ==>
              outcome == if PaddingOverruns(r.value, bits, table) then Overran else Decoded(Chars(decoded))
    // it is the text itself exactly if code 26 of MIXED is not used and the padding is harmless
    ensures r.Some? && Correctable(r.value, Flipped(r.value.sent, noise)) ==>
              (outcome == Decoded(Chars(text)) <==>
               !Swaps(ChosenTokens(text)) && !PaddingOverruns(r.value, bits, table))
    ensures r.Some? && r.value.symbol.layers <= 22 ==> !PaddingOverruns(r.value, bits, table)
  {
    hide *;
    outcome := Overran;
    r, bits, decoded, table := Send(text, minECCPercent, userSpecifiedLayers);
    if r.Some? {
      EncodedMoves(text, bits, decoded, table);
      outcome := Receive(r.value, Flipped(r.value.sent, noise), bits, decoded, table);
      CharsInjective(decoded, text);
      if r.value.symbol.layers <= 22 {
        NoOverrun(r.value, bits, table);
      }
    }
  }
}
