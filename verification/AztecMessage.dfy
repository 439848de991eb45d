// Words and check words of Aztec messages (zxing-core/src/aztec/AZEncoder.cpp:57-67 and 124-149,
// AZDecoder.cpp:121-170, BitArray.h:138-149).
module AztecMessage {
  import opened BitOps
  import opened BitStream
  import opened BitOutput
  import opened CanonicalCode
  import opened BitReversal
  import opened BitArrays
  import opened AztecStuffing
  import opened GenericGF
  import opened ReedSolomonEncoder
  import opened ErrorPattern
  import opened ReedSolomonDecoder
  import opened ErrorExplanation
  import opened ErrorCorrection
  import Poly = PolyAlgebra

  // ----- words

  function WordsBits(words: seq<nat>, w: nat): (b: Bits) {
    if |words| == 0 then [] else MsbBits(words[0], w) + WordsBits(words[1..], w)
  }

  /** The words of w bits, the most significant bit first. */
  function WordsOf(bits: Bits, w: nat): (words: seq<nat>)
    requires w > 0
    decreases |bits|
  {
    if |bits| < w then [] else [FromMsb(bits[..w])] + WordsOf(bits[w..], w)
  }

  predicate Below(words: seq<nat>, w: nat) {
    forall i :: 0 <= i < |words| ==> words[i] < Pow2(w)
  }

  lemma {:induction false} WordsBitsMore(words: seq<nat>, x: nat, w: nat)
    ensures WordsBits(words + [x], w) == WordsBits(words, w) + MsbBits(x, w)
  {
    hide MsbBits;
    if |words| == 0 {
      assert (words + [x])[1..] == [];
      assert WordsBits([], w) == [];
      assert WordsBits(words + [x], w) == MsbBits(x, w) + [];
    } else {
      WordsBitsMore(words[1..], x, w);
      assert (words + [x])[1..] == words[1..] + [x];
    }
  }

  lemma {:induction false} WordsRoundTrip(words: seq<nat>, w: nat)
    requires w > 0 && Below(words, w)
    ensures WordsOf(WordsBits(words, w), w) == words
  {
    hide MsbBits, FromMsb, Pow2, WordsOf;
    if |words| == 0 {
      NoWords(w);
      NoBitsNoWords(w);
    } else {
      WordsRoundTrip(words[1..], w);
      FromMsbBits(words[0], w);
      FirstWord(MsbBits(words[0], w), WordsBits(words[1..], w), w);
      assert words == [words[0]] + words[1..];
    }
  }

  lemma NoBitsNoWords(w: nat)
    requires w > 0
    ensures WordsOf([], w) == []
  {
  }

  lemma {:induction false} WordsLength(words: seq<nat>, w: nat)
    ensures |WordsBits(words, w)| == w * |words|
  {
    hide MsbBits;
    if |words| > 0 {
      WordsLength(words[1..], w);
      OneMore(w, |words|);
    }
  }

  lemma FirstWord(a: Bits, b: Bits, w: nat)
    requires |a| == w > 0
    ensures WordsOf(a + b, w) == [FromMsb(a)] + WordsOf(b, w)
  {
    hide FromMsb;
    assert (a + b)[..|a|] == a && (a + b)[|a|..] == b;
  }

  lemma OneMore(w: nat, n: nat)
    requires n > 0
    ensures w * n == w + w * (n - 1)
  {
  }

  lemma {:induction false} WordsBelow(bits: Bits, w: nat)
    requires w > 0
    ensures Below(WordsOf(bits, w), w)
    decreases |bits|
  {
    if |bits| >= w {
      MsbBitsFrom(bits[..w]);
      hide Pow2, FromMsb;
      WordsBelow(bits[w..], w);
    }
  }

  lemma {:induction false} WordsCount(bits: Bits, w: nat)
    requires w > 0
    ensures |WordsOf(bits, w)| == |bits| / w
    decreases |bits|
  {
    if |bits| >= w {
      WordsCount(bits[w..], w);
      var q, r := |bits[w..]| / w, |bits[w..]| % w;
      assert |bits| == (q + 1) * w + r by {
        assert |bits| - w == q * w + r;
        Distribute(q, 1, w);
      }
      ModUnique(|bits|, w, q + 1, r);
    }
  }

  /** ToInts, for bits that fill whole words after the offset. */
  method ToInts(bits: Bits, wordSize: nat, totalWords: nat, offset: nat) returns (res: seq<nat>)
    requires wordSize > 0 && offset <= |bits| && (|bits| - offset) % wordSize == 0
    requires totalWords >= (|bits| - offset) / wordSize
    ensures |res| == totalWords
    ensures var words := WordsOf(bits[offset..], wordSize);
      |words| <= totalWords && res == words + seq(totalWords - |words|, _ => 0)
  {
    hide FromMsb;
    ghost var words := WordsOf(bits[offset..], wordSize);
    WordsCount(bits[offset..], wordSize);
    res := seq(totalWords, _ => 0);
    var i := offset;
    ghost var k := 0;
    assert bits[i..] == bits[offset..];
    while i < |bits|
      invariant offset <= i <= |bits| && i - offset == k * wordSize && |res| == totalWords && 0 <= k <= |words|
      invariant (|bits| - i) % wordSize == 0 && words[k..] == WordsOf(bits[i..], wordSize)
      invariant res == words[..k] + seq(totalWords - k, _ => 0)
    {
      NextWord(|bits| - i, wordSize, k);
      var x := ToInt(bits, i, wordSize);
      assert bits[i..][..wordSize] == bits[i..i + wordSize] && bits[i..][wordSize..] == bits[i + wordSize..];
      WordStep(words, k, x, WordsOf(bits[i + wordSize..], wordSize), res, totalWords);
      res := res[(i - offset) / wordSize := x];
      i := i + wordSize;
      k := k + 1;
    }
    assert words[k..] == [];
  }

  lemma WordStep(words: seq<nat>, k: nat, x: nat, rest: seq<nat>, res: seq<nat>, total: nat)
    requires k < |words| <= total && words[k..] == [x] + rest && res == words[..k] + seq(total - k, _ => 0)
    ensures words[k + 1..] == rest && res[k := x] == words[..k + 1] + seq(total - (k + 1), _ => 0)
  {
    assert words[k] == words[k..][0] == x;
    assert words[k + 1..] == words[k..][1..];
  }

  lemma NextWord(left: nat, w: nat, k: nat)
    requires w > 0 && left > 0 && left % w == 0
    ensures left >= w && (left - w) % w == 0 && (k * w) / w == k && (k + 1) * w == k * w + w
  {
    var q := left / w;
    assert left == q * w;
    ModUnique(left - w, w, q - 1, 0);
    ModUnique(k * w, w, k, 0);
  }

  // ----- stuffing

  /** The mask with all bits of a word but the last. */
  lemma {:induction false} AndOnes(x: nat, n: nat)
    requires x < Pow2(n)
    ensures And(x, Pow2(n) - 1) == x
  {
    if n > 0 {
      AndOnes(x / 2, n - 1);
      var p := Pow2(n - 1);
      assert (2 * p - 1) / 2 == p - 1 && (2 * p - 1) % 2 == 1;
      AndDigits(x, 2 * p - 1);
      hide And;
      SameDigits(And(x, 2 * p - 1), x);
    }
  }

  lemma AndMask(word: nat, w: nat)
    requires w > 0 && word < Pow2(w)
    ensures And(word, Pow2(w) - 2) == 2 * (word / 2)
  {
    var p := Pow2(w - 1);
    assert Pow2(w) == 2 * p;
    AndOnes(word / 2, w - 1);
    hide Pow2;
    assert (2 * p - 2) / 2 == p - 1 && (2 * p - 2) % 2 == 0;
    AndDigits(word, 2 * p - 2);
    hide And;
    SameDigits(And(word, 2 * p - 2), 2 * (word / 2));
  }

  lemma OrLast(word: nat)
    requires word < 2
    ensures Or(word, 1) == 1
  {
    OrDigits(word, 1);
    assert Or(0, 0) == 0;
    assert word / 2 == 0;
  }

  /** One bit more of a word that is built from the top. */
  lemma NextBit(b: Bits, w: nat, j: nat)
    requires j < w == |b|
    ensures FromMsb(b[..j + 1]) * Pow2(w - 1 - j) ==
            (if b[j] then Or(FromMsb(b[..j]) * Pow2(w - j), Pow2(w - 1 - j)) else FromMsb(b[..j]) * Pow2(w - j))
  {
    assert b[..j + 1][..j] == b[..j];
    var x, p := FromMsb(b[..j]), Pow2(w - 1 - j);
    Pow2Next(w - 1 - j);
    assert FromMsb(b[..j + 1]) == 2 * x + if b[j] then 1 else 0;
    hide Pow2, FromMsb, Or;
    Doubled(x, p);
    if b[j] {
      Pow2Above(w - 1 - j);
      OrDisjoint(p, x, w - j);
      OrComm(x * Pow2(w - j), p);
    }
  }

  lemma Doubled(x: nat, p: nat)
    ensures x * (2 * p) == (2 * x) * p && (2 * x + 1) * p == x * (2 * p) + p
  {
    assert x * (2 * p) == (2 * x) * p;
    Distribute(2 * x, 1, p);
  }

  lemma Pow2Above(n: nat)
    ensures Pow2(n) < Pow2(n + 1)
  {
  }

  /** Lines 131 to 136: the next word, with ones past the end. */
  method BuildWord(bits: Bits, i: nat, wordSize: nat) returns (word: nat)
    requires i <= |bits|
    ensures word == FromMsb(WordAt(bits, i, wordSize))
  {
    hide FromMsb, Pow2, Or;
    ghost var b := WordAt(bits, i, wordSize);
    word := 0;
    var j := 0;
    FromNothing(b, Pow2(wordSize));
    while j < wordSize
      invariant 0 <= j <= wordSize && word == FromMsb(b[..j]) * Pow2(wordSize - j)
    {
      NextBit(b, wordSize, j);
      if i + j >= |bits| || bits[i + j] {
        word := Or(word, Pow2(wordSize - 1 - j));
      }
      j := j + 1;
    }
    Pow2Zero();
    assert b[..wordSize] == b;
  }

  lemma FromNothing(b: Bits, p: nat)
    ensures FromMsb(b[..0]) * p == 0
  {
  }

  /** StuffBits. */
  method StuffBits(bits: Bits, wordSize: nat, out: BitArray)
    requires wordSize > 2
    modifies out
    ensures out.bits == WordsBits(Stuffed(bits, 0, wordSize), wordSize)
  {
    hide FromMsb, And, Or, WordsBits, WordFor, Advance, MsbBits;
    out.bits := [];
    ghost var done: seq<nat> := [];
    NoWords(wordSize);
    var n := |bits|;
    var mask := Pow2(wordSize) - 2;
    var i: int := 0;
    while i < n
      invariant 0 <= i
      invariant out.bits == WordsBits(done, wordSize)
      invariant done + Stuffed(bits, i, wordSize) == Stuffed(bits, 0, wordSize)
      decreases n - i
    {
      var word := BuildWord(bits, i, wordSize);
      WordTests(bits, i, wordSize);
      ghost var next := WordFor(bits, i, wordSize);
      assert done + ([next] + Stuffed(bits, i + Advance(bits, i, wordSize), wordSize)) ==
             (done + [next]) + Stuffed(bits, i + Advance(bits, i, wordSize), wordSize);
      WordsBitsMore(done, next, wordSize);
      if And(word, mask) == mask {
        out.AppendBits(And(word, mask), wordSize);
        i := i - 1;
      } else if And(word, mask) == 0 {
        out.AppendBits(Or(word, 1), wordSize);
        i := i - 1;
      } else {
        out.AppendBits(word, wordSize);
      }
      done := done + [next];
      i := i + wordSize;
    }
    assert done + [] == done;
  }

  lemma NoWords(w: nat)
    ensures WordsBits([], w) == []
  {
  }

  /** The tests on the number are the tests on its bits. */
  lemma WordTests(bits: Bits, i: nat, w: nat)
    requires w > 2 && i <= |bits|
    ensures var word, mask := FromMsb(WordAt(bits, i, w)), Pow2(w) - 2;
      && mask >= 0
      && (And(word, mask) == mask ==> WordFor(bits, i, w) == mask && Advance(bits, i, w) == w - 1)
      && (And(word, mask) != mask && And(word, mask) == 0 ==>
            WordFor(bits, i, w) == Or(word, 1) && Advance(bits, i, w) == w - 1)
      && (And(word, mask) != mask && And(word, mask) != 0 ==>
            WordFor(bits, i, w) == word && Advance(bits, i, w) == w)
  {
    hide FromMsb, And, Or, MsbBits, WordAt;
    var b := WordAt(bits, i, w);
    var word := FromMsb(b);
    WordHead(b, w);
    AndMask(word, w);
    Pow2Next(w - 1);
    Pow2Next(w - 2);
    hide Pow2;
    if word / 2 == 0 {
      OrLast(word);
    }
  }

  // ----- check words

  /** A field of words of w bits, with its roots starting at alpha. */
  ghost predicate WordField(f: Field, w: nat) {
    f.size == Pow2(w) && f.generatorBase == 1
  }

  lemma OverBelow(f: Field, words: seq<nat>, w: nat)
    requires WordField(f, w)
    ensures Poly.Over(f, words) <==> Below(words, w)
  {
  }

  /** The data words followed by check words, as many as fit. */
  ghost predicate Checked(f: Field, data: seq<nat>, numWords: nat, w: nat, codeword: seq<nat>)
    requires InTable(f, numWords)
  {
    && Below(codeword, w) && |codeword| == numWords && |data| <= numWords && codeword[..|data|] == data
    && IsCodeword(f, codeword, numWords - |data|)
  }

  /** GenerateCheckWords: padding bits, then the data words, then the check words. */
  method GenerateCheckWords(f: Field, bits: Bits, totalBits: nat, wordSize: nat, messageBits: BitArray)
    returns (ok: bool, ghost codeword: seq<nat>)
    requires wordSize > 0 && WordField(f, wordSize) && |bits| % wordSize == 0 && |bits| <= totalBits
    requires InTable(f, totalBits / wordSize)
    modifies messageBits
    ensures ok <==> |bits| > 0 && totalBits - |bits| >= wordSize
    ensures ok ==> Checked(f, WordsOf(bits, wordSize), totalBits / wordSize, wordSize, codeword)
    ensures ok ==> messageBits.bits == Zeros(totalBits % wordSize) + WordsBits(codeword, wordSize)
    ensures ok ==> |messageBits.bits| == totalBits
  {
    hide WordsOf, WordsBits, IsCodeword, Poly.Over, MsbBits, Below, IsField, WordField;
    CheckCount(totalBits, |bits|, wordSize);
    WordsCount(bits, wordSize);
    WordsBelow(bits, wordSize);
    var numECCodeWords := (totalBits - |bits|) / wordSize;
    var words := ToInts(bits, wordSize, totalBits / wordSize, 0);
    assert bits[0..] == bits;
    var checked;
    ok, checked := AddCheckWords(f, words, numECCodeWords, wordSize, WordsOf(bits, wordSize));
    codeword := checked;
    if !ok {
      return;
    }
    var startPad := totalBits % wordSize;
    messageBits.bits := [];
    messageBits.AppendBits(0, startPad);
    MsbZeros(startPad);
    WriteWords(checked, wordSize, messageBits);
    NothingBefore(MsbBits(0, startPad));
    WordsLength(codeword, wordSize);
    DivMod(totalBits, wordSize);
  }

  lemma NothingBefore(b: Bits)
    ensures [] + b == b
  {
  }

  /** Line 61: the zeros after the data become check words. */
  method AddCheckWords(f: Field, words: seq<nat>, numECCodeWords: nat, wordSize: nat, ghost data: seq<nat>)
    returns (ok: bool, codeword: seq<nat>)
    requires WordField(f, wordSize) && InTable(f, |words|) && |words| == |data| + numECCodeWords
    requires Below(data, wordSize) && words == data + seq(numECCodeWords, _ => 0)
    ensures ok <==> |data| > 0 && numECCodeWords > 0
    ensures ok ==> Checked(f, data, |words|, wordSize, codeword)
  {
    hide IsCodeword, Poly.Over, IsField, Below;
    codeword := words;
    ZerosBelow(words, data, wordSize);
    OverBelow(f, words, wordSize);
    BaseInTable(f, |words|);
    var message := new nat[|words|](i requires 0 <= i < |words| => words[i]);
    assert message[..] == words;
    var encoder := new Encoder(f);
    ok := encoder.Encode(message, numECCodeWords);
    if ok {
      codeword := message[..];
      OverBelow(f, codeword, wordSize);
      assert codeword[..|data|] == words[..|data|] == data;
    }
  }

  lemma BaseInTable(f: Field, n: nat)
    requires InTable(f, n)
    ensures f.generatorBase <= |f.expTable|
  {
  }

  lemma MsbZeros(n: nat)
    ensures MsbBits(0, n) == Zeros(n)
  {
    FromMsbZeros(n);
    MsbBitsFrom(Zeros(n));
  }

  lemma ZerosBelow(words: seq<nat>, data: seq<nat>, w: nat)
    requires Below(data, w) && |data| <= |words| && words == data + seq(|words| - |data|, _ => 0)
    ensures Below(words, w)
  {
  }

  /** The numbers of words add up. */
  lemma CheckCount(total: nat, size: nat, w: nat)
    requires w > 0 && size % w == 0 && size <= total
    ensures total / w - size / w == (total - size) / w
    ensures size / w <= total / w
    ensures (total - size) / w > 0 <==> total - size >= w
    ensures size / w > 0 <==> size > 0
  {
    var left := total - size;
    var q, r, d := left / w, left % w, size / w;
    DivMod(left, w);
    DivMod(size, w);
    assert total == (d + q) * w + r by {
      Distribute(d, q, w);
      assert w * q == q * w && w * d == d * w;
    }
    ModUnique(total, w, d + q, r);
    QuotientPositive(left, w);
    QuotientPositive(size, w);
  }

  lemma QuotientPositive(n: nat, w: nat)
    requires w > 0
    ensures n / w > 0 <==> n >= w
    ensures 0 < n < w ==> n % w != 0
  {
  }

  method WriteWords(words: seq<nat>, wordSize: nat, out: BitArray)
    modifies out
    ensures out.bits == old(out.bits) + WordsBits(words, wordSize)
  {
    hide MsbBits, WordsBits;
    var i := 0;
    NoWords(wordSize);
    while i < |words|
      invariant 0 <= i <= |words| && out.bits == old(out.bits) + WordsBits(words[..i], wordSize)
    {
      assert words[..i + 1] == words[..i] + [words[i]];
      WordsBitsMore(words[..i], words[i], wordSize);
      out.AppendBits(words[i], wordSize);
      i := i + 1;
    }
    assert words[..|words|] == words;
  }

  // ----- correction and unstuffing

  /** The errors that CorrectBits throws, and its normal results: corrected bits, or none at all for a bad word. */
  datatype Correction = Corrected(bits: Bits) | FormatError | ChecksumError | DecoderThrew

  /** The word size that the decoder takes for a number of layers. */
  function CodewordSize(nbLayers: nat): nat {
    if nbLayers <= 2 then 6 else if nbLayers <= 8 then 8 else if nbLayers <= 22 then 10 else 12
  }

  /** The bits of the data words, or none at all if one of them is all zeros or all ones. */
  function DataBits(words: seq<nat>, nbDatablocks: nat, w: nat): Bits
    requires nbDatablocks <= |words| && w >= 2
  {
    if AllAllowed(words[..nbDatablocks], w) then Unstuffed(words[..nbDatablocks], w) else []
  }

  /** The words of a message, after the bits that do not fill a word. */
  function ReceivedWords(rawbits: Bits, w: nat): (words: seq<nat>)
    requires w > 0 && |rawbits| >= w
    ensures |words| == |rawbits| / w > 0
  {
    WholeWords(|rawbits|, w);
    WordsCount(rawbits[|rawbits| % w..], w);
    WordsOf(rawbits[|rawbits| % w..], w)
  }

  /**
   * CorrectBits. It throws a format error exactly for too few words. Beyond that, it yields data exactly for a code
   * word and for words with errors that explain their syndromes: those of a code word within reach, or else of words
   * that differ from those received in no more places than check words can fix, rounded up.
   */
  method CorrectBits(f: Field, nbLayers: nat, nbDatablocks: nat, rawbits: Bits)
    returns (r: Correction, ghost words: seq<nat>)
    requires WordField(f, CodewordSize(nbLayers)) && |rawbits| >= CodewordSize(nbLayers)
    requires nbDatablocks <= |rawbits| / CodewordSize(nbLayers) ==>
               InTable(f, |rawbits| / CodewordSize(nbLayers) - nbDatablocks)
    ensures var received := ReceivedWords(rawbits, CodewordSize(nbLayers));
      var numEC := |received| - nbDatablocks;
      && (r == FormatError <==> numEC < 0)
      && (r == DecoderThrew <==> numEC == 1 && Syndrome(f, received, 0) != 0)
      && (numEC >= 0 ==>
            (r.Corrected? <==> IsCodeword(f, received, numEC) || Explained(f, received, numEC)))
      && (r.Corrected? ==>
            && |words| == |received| && numEC >= 0 && Distance(received, words, |received|) <= numEC - numEC / 2
            && r == Corrected(DataBits(words, nbDatablocks, CodewordSize(nbLayers))))
      && (|received| < f.size && numEC >= 0 ==>
            forall c: seq<nat> :: Within(f, c, received, numEC) ==> r.Corrected? && words == c)
  {
    var codewordSize := CodewordSize(nbLayers);
    words := [];
    hide WordsOf, Within, IsField, Poly.Over, Below, AllAllowed, Unstuffed, InTable, IsCodeword, Distance, Syndrome,
      Explained, Solvable, LeftBySolution, FromMsb, Pow2;
    var numCodewords := |rawbits| / codewordSize;
    if numCodewords < nbDatablocks {
      return FormatError, [];
    }
    var numECCodewords := numCodewords - nbDatablocks;
    var offset := |rawbits| % codewordSize;
    WholeWords(|rawbits|, codewordSize);
    WordsCount(rawbits[offset..], codewordSize);
    WordsBelow(rawbits[offset..], codewordSize);
    var ints := ToInts(rawbits, codewordSize, numCodewords, offset);
    ghost var received := ReceivedWords(rawbits, codewordSize);
    assert ints == received;
    OverBelow(f, ints, codewordSize);
    var dataWords := new nat[|ints|](i requires 0 <= i < |ints| => ints[i]);
    assert dataWords[..] == ints;
    var outcome := ReedSolomonDecode(f, dataWords, numECCodewords);
    words := dataWords[..];
    if outcome == Threw {
      return DecoderThrew, [];
    }
    if outcome == Failed {
      return ChecksumError, [];
    }
    OverBelow(f, dataWords[..], codewordSize);
    BelowPrefix(dataWords[..], nbDatablocks, codewordSize);
    var bits := Unstuff(dataWords[..nbDatablocks], codewordSize);
    r := Corrected(bits);
  }

  lemma BelowPrefix(words: seq<nat>, n: nat, w: nat)
    requires Below(words, w) && n <= |words|
    ensures words[..n] == words[..n] && Below(words[..n], w)
  {
  }

  lemma WholeWords(n: nat, w: nat)
    requires w > 0 && n >= w
    ensures n % w <= n && (n - n % w) % w == 0 && (n - n % w) / w == n / w > 0
  {
    var q := n / w;
    assert n == q * w + n % w;
    ModUnique(n - n % w, w, q, 0);
    assert q >= 1;
  }

  /** Lines 156 to 167. */
  method Unstuff(dataWords: seq<nat>, codewordSize: nat) returns (bits: Bits)
    requires 2 < codewordSize <= 12 && Below(dataWords, codewordSize)
    ensures bits == if AllAllowed(dataWords, codewordSize) then Unstuffed(dataWords, codewordSize) else []
  {
    hide MsbBits, FromMsb, WordBits, Pow2;
    var correctedBits := new BitArray();
    var i := 0;
    while i < |dataWords|
      invariant i <= |dataWords| && AllAllowed(dataWords[..i], codewordSize)
      invariant correctedBits.bits + Unstuffed(dataWords[i..], codewordSize) == Unstuffed(dataWords, codewordSize)
    {
      var dataWord := dataWords[i];
      OneWord(dataWord, codewordSize);
      if dataWord == 0 || dataWord == Pow2(codewordSize) - 1 {
        return [];
      } else if dataWord == 1 {
        correctedBits.AppendBits(0, codewordSize - 1);
      } else if dataWord == Pow2(codewordSize) - 2 {
        correctedBits.AppendBits(0xffffffff, codewordSize - 1);
      } else {
        correctedBits.AppendBits(dataWord, codewordSize);
      }
      assert dataWords[i..][1..] == dataWords[i + 1..];
      i := i + 1;
    }
    bits := correctedBits.bits;
  }

  /** What the branches append is what the word stands for. */
  lemma OneWord(word: nat, w: nat)
    requires 2 < w <= 12
    ensures word == 1 ==> WordBits(word, w) == MsbBits(0, w - 1)
    ensures word == Pow2(w) - 2 ==> WordBits(word, w) == MsbBits(0xffffffff, w - 1)
    ensures word != 1 && word != Pow2(w) - 2 ==> WordBits(word, w) == MsbBits(word, w)
    ensures Pow2(w) >= 8
  {
    MsbZeros(w - 1);
    MsbOnes(w - 1);
    Pow2AtMost(3, w);
    assert Pow2(3) == 8;
  }

  lemma MsbOnes(n: nat)
    requires n <= 32
    ensures MsbBits(0xffffffff, n) == Ones(n)
  {
    FromOnes(n);
    MsbBitsFrom(Ones(n));
    MsbBitsLow(0xffffffff, n);
    LowOnes(n);
  }

  /** The lowest n of 32 ones are n ones. */
  lemma LowOnes(n: nat)
    requires n <= 32
    ensures Low(0xffffffff, n) == Pow2(n) - 1
  {
    hide Pow2;
    Pow2Add(16, 16);
    Pow2Add(n, 32 - n);
    SmallPowers();
    AllOnes(n, Pow2(n), Pow2(32 - n));
  }

  lemma AllOnes(n: nat, p: nat, q: nat)
    requires p == Pow2(n) && p * q == 0x1_0000_0000
    ensures Low(0xffffffff, n) == p - 1
  {
    hide Pow2, Low, High;
    assert q > 0;
    assert p * (q - 1) == p * q - p;
    LowHighUnique(0xffffffff, n, p - 1, q - 1);
  }
}
