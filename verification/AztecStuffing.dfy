// Bit stuffing of Aztec messages and its inverse (zxing-core/src/aztec/AZEncoder.cpp:124-149, AZDecoder.cpp:155-169;
// ISO/IEC 24778:2008, section 7.3.1.2).
module AztecStuffing {
  import opened BitOps
  import opened BitStream
  import opened BitOutput
  import opened CanonicalCode
  import opened BitReversal
  import opened BitArrays

  function Ones(n: nat): Bits {
    seq(n, _ => true)
  }

  /** w bits from i on, with ones past the end. */
  function WordAt(bits: Bits, i: nat, w: nat): (word: Bits)
    requires i <= |bits|
    ensures |word| == w
  {
    if i + w <= |bits| then bits[i..i + w] else bits[i..] + Ones(i + w - |bits|)
  }

  predicate EqualHead(bits: Bits, i: nat, w: nat)
    requires i <= |bits| && w >= 2
  {
    var head := WordAt(bits, i, w)[..w - 1];
    head == Ones(w - 1) || head == Zeros(w - 1)
  }

  /** How many bits the next word takes in: one less when its first w - 1 bits are equal. */
  function Advance(bits: Bits, i: nat, w: nat): (n: nat)
    requires i <= |bits| && w >= 2
    ensures w - 1 <= n <= w
  {
    if EqualHead(bits, i, w) then w - 1 else w
  }

  /** The next word: when its first w - 1 bits are equal its last bit differs from them. */
  function WordFor(bits: Bits, i: nat, w: nat): nat
    requires i <= |bits| && w >= 2
  {
    var word := WordAt(bits, i, w);
    if word[..w - 1] == Ones(w - 1) then Pow2(w) - 2
    else if word[..w - 1] == Zeros(w - 1) then 1
    else FromMsb(word)
  }

  /** The words from bit i on. */
  function Stuffed(bits: Bits, i: nat, w: nat): seq<nat>
    requires w >= 2
    decreases if i < |bits| then |bits| - i else 0
  {
    if i >= |bits| then [] else [WordFor(bits, i, w)] + Stuffed(bits, i + Advance(bits, i, w), w)
  }

  /** What one word stands for; a word of equal bits stands for nothing. */
  function WordBits(word: nat, w: nat): Bits
    requires w >= 2
  {
    if word == 1 then Zeros(w - 1)
    else if word == Pow2(w) - 2 then Ones(w - 1)
    else MsbBits(word, w)
  }

  predicate Allowed(word: nat, w: nat) {
    0 < word < Pow2(w) - 1
  }

  predicate AllAllowed(words: seq<nat>, w: nat) {
    forall i :: 0 <= i < |words| ==> Allowed(words[i], w)
  }

  function Unstuffed(words: seq<nat>, w: nat): Bits
    requires w >= 2
  {
    if |words| == 0 then [] else WordBits(words[0], w) + Unstuffed(words[1..], w)
  }

  /** The number of ones that pad the last word. */
  function Padding(bits: Bits, i: nat, w: nat): nat
    requires w >= 2
    decreases if i < |bits| then |bits| - i else 0
  {
    if i >= |bits| then i - |bits| else Padding(bits, i + Advance(bits, i, w), w)
  }

  lemma {:induction false} PaddingShort(bits: Bits, i: nat, w: nat)
    requires w >= 2 && i < |bits| + w
    ensures Padding(bits, i, w) < w
    decreases if i < |bits| then |bits| - i else 0
  {
    hide Advance;
    if i < |bits| {
      PaddingShort(bits, i + Advance(bits, i, w), w);
    }
  }

  lemma FromOnes(w: nat)
    ensures FromMsb(Ones(w)) == Pow2(w) - 1
  {
    if w > 0 {
      assert Ones(w)[..w - 1] == Ones(w - 1);
      FromOnes(w - 1);
    }
  }

  lemma FromMsbZeros(w: nat)
    ensures FromMsb(Zeros(w)) == 0
  {
    if w > 0 {
      assert Zeros(w)[..w - 1] == Zeros(w - 1);
      FromMsbZeros(w - 1);
    }
  }

  /** A word is its first w - 1 bits and one more. */
  lemma WordHead(word: Bits, w: nat)
    requires |word| == w >= 2
    ensures FromMsb(word) / 2 == FromMsb(word[..w - 1])
    ensures FromMsb(word) < Pow2(w) && MsbBits(FromMsb(word), w) == word
    ensures word[..w - 1] == Ones(w - 1) <==> FromMsb(word) / 2 == Pow2(w - 1) - 1
    ensures word[..w - 1] == Zeros(w - 1) <==> FromMsb(word) / 2 == 0
  {
    MsbBitsFrom(word);
    MsbBitsFrom(word[..w - 1]);
    MsbBitsFrom(Ones(w - 1));
    MsbBitsFrom(Zeros(w - 1));
    FromOnes(w - 1);
    FromMsbZeros(w - 1);
  }

  /** A word that is written as it is cannot be mistaken for a stuffed one. */
  lemma PlainWord(word: Bits, w: nat)
    requires |word| == w >= 2 && word[..w - 1] != Ones(w - 1) && word[..w - 1] != Zeros(w - 1)
    ensures Allowed(FromMsb(word), w) && WordBits(FromMsb(word), w) == word
  {
    hide MsbBits, FromMsb;
    WordHead(word, w);
    Pow2Next(w - 1);
    hide Pow2;
  }

  lemma StuffedWords(w: nat)
    requires w >= 2
    ensures Allowed(1, w) || w == 2
    ensures Allowed(1, w) && Allowed(Pow2(w) - 2, w)
    ensures w > 2 ==> WordBits(Pow2(w) - 2, w) == Ones(w - 1)
    ensures WordBits(1, w) == Zeros(w - 1)
  {
    assert Pow2(w) == 2 * Pow2(w - 1) && Pow2(w - 1) == 2 * Pow2(w - 2);
  }

  /** The next word stands for the bits it takes in, and no word is all zeros or all ones. */
  lemma WordForStands(bits: Bits, i: nat, w: nat)
    requires w > 2 && i <= |bits|
    ensures Allowed(WordFor(bits, i, w), w)
    ensures WordBits(WordFor(bits, i, w), w) == WordAt(bits, i, w)[..Advance(bits, i, w)]
  {
    hide Pow2, MsbBits, FromMsb, WordBits, WordAt;
    var word := WordAt(bits, i, w);
    StuffedWords(w);
    if !EqualHead(bits, i, w) {
      PlainWord(word, w);
      assert word[..w] == word;
    }
  }

  /** Unstuffing gives the bits back, followed by fewer than w ones. */
  lemma {:induction false} Unstuffs(bits: Bits, i: nat, w: nat)
    requires w > 2 && i <= |bits|
    ensures AllAllowed(Stuffed(bits, i, w), w)
    ensures Unstuffed(Stuffed(bits, i, w), w) == bits[i..] + Ones(Padding(bits, i, w))
    decreases |bits| - i
  {
    hide Pow2, MsbBits, FromMsb, WordBits, Advance, WordFor;
    if i == |bits| {
      assert bits[i..] + Ones(0) == [];
    } else {
      var n := Advance(bits, i, w);
      WordForStands(bits, i, w);
      var words, rest := Stuffed(bits, i, w), Stuffed(bits, i + n, w);
      assert words[1..] == rest && words[0] == WordFor(bits, i, w);
      if i + n <= |bits| {
        Unstuffs(bits, i + n, w);
        HeadAndRest(bits, i, w, n);
      } else {
        PaddedHead(bits, i, w, n);
      }
    }
  }

  lemma HeadAndRest(bits: Bits, i: nat, w: nat, n: nat)
    requires w - 1 <= n <= w && i + n <= |bits| && w >= 2
    ensures forall b: Bits :: WordAt(bits, i, w)[..n] + (bits[i + n..] + b) == bits[i..] + b
  {
    assert WordAt(bits, i, w)[..n] == bits[i..i + n];
  }

  lemma PaddedHead(bits: Bits, i: nat, w: nat, n: nat)
    requires i < |bits| && w - 1 <= n <= w && i + n > |bits| && w >= 2
    ensures WordAt(bits, i, w)[..n] + [] == bits[i..] + Ones(i + n - |bits|)
  {
  }
}
