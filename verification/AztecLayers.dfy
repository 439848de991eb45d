// The choice of an Aztec symbol (zxing-core/src/aztec/AZEncoder.cpp:21-25 and 151-229) and the word size that the
// decoder takes from its layers (AZDecoder.cpp:121-139).
module AztecLayers {
  import opened BitOps
  import opened BitStream
  import opened BitOutput
  import opened BitArrays
  import opened Options
  import opened AztecStuffing
  import opened AztecMessage

  const MAX_NB_BITS := 32
  const MAX_NB_BITS_COMPACT := 4
  const DEFAULT_EC_PERCENT := 33
  const DEFAULT_AZTEC_LAYERS := 0

  const WORD_SIZE: seq<nat> :=
    [4, 6, 6, 8, 8, 8, 8, 8, 8, 10, 10, 10, 10, 10, 10, 10, 10,
     10, 10, 10, 10, 10, 10, 12, 12, 12, 12, 12, 12, 12, 12, 12, 12]

  datatype Symbol = Symbol(compact: bool, layers: nat)

  predicate Possible(s: Symbol) {
    1 <= s.layers <= if s.compact then MAX_NB_BITS_COMPACT else MAX_NB_BITS
  }

  function WordSize(s: Symbol): nat
    requires Possible(s)
  {
    WORD_SIZE[s.layers]
  }

  function TotalBitsInLayer(layers: nat, compact: bool): nat {
    ((if compact then 88 else 112) + 16 * layers) * layers
  }

  function TotalBits(s: Symbol): nat {
    TotalBitsInLayer(s.layers, s.compact)
  }

  /** The layers are rings around a square of 11 modules, or of 14: a layer adds two modules on each side. */
  lemma LayerArea(s: Symbol)
    ensures var side := (if s.compact then 11 else 14) + 4 * s.layers;
      TotalBits(s) == side * side - (if s.compact then 11 * 11 else 14 * 14)
  {
    var c, l: int := if s.compact then 11 else 14, s.layers;
    assert (c + 4 * l) * (c + 4 * l) == c * c + 8 * c * l + 16 * l * l;
    assert (8 * c + 16 * l) * l == 8 * c * l + 16 * l * l;
  }

  /** Writer and reader agree on the word size, and every symbol has fewer words than its field has elements. */
  lemma WordSizes(s: Symbol)
    requires Possible(s)
    ensures WordSize(s) == CodewordSize(s.layers) && WordSize(s) in {6, 8, 10, 12}
    ensures TotalBits(s) / WordSize(s) < Pow2(WordSize(s))
  {
    TotalBound(s);
    SmallPowers();
    hide TotalBits, Pow2;
    if s.layers <= 2 {
    } else if s.layers <= 8 {
    } else if s.layers <= 22 {
    } else {
    }
  }

  lemma TotalBound(s: Symbol)
    requires Possible(s)
    ensures TotalBits(s) <= if s.layers <= 2 then 288 else if s.layers <= 8 then 1920 else if s.layers <= 22 then 10208
                            else 19968
  {
    var most := if s.layers <= 2 then 2 else if s.layers <= 8 then 8 else if s.layers <= 22 then 22 else 32;
    var c := if s.compact then 88 else 112;
    MulMonotone(c + 16 * s.layers, 112 + 16 * most, s.layers);
    MulMonotone(s.layers, most, 112 + 16 * most);
  }

  // ----- what fits

  /** The bits of the stuffed words. */
  function StuffedSize(bits: Bits, w: nat): nat
    requires w >= 2
  {
    w * |Stuffed(bits, 0, w)|
  }

  /** The bits that are left for error correction at the least. */
  function EccBits(size: nat, minECCPercent: nat): nat {
    size * minECCPercent / 100 + 11
  }

  /** Data and check words fit the symbol, and a compact symbol has at most 64 data words. */
  predicate FitsSymbol(bits: Bits, eccBits: nat, s: Symbol)
    requires Possible(s)
  {
    WordSizes(s);
    var w := WordSize(s);
    && StuffedSize(bits, w) + eccBits <= TotalBits(s) - TotalBits(s) % w
    && (s.compact ==> |Stuffed(bits, 0, w)| <= 64)
  }

  /** The symbols in the order in which they are tried: compact ones with 1 to 4 layers, then 4 to 32 layers. */
  function Candidate(i: nat): (s: Symbol)
    requires i <= MAX_NB_BITS
    ensures Possible(s)
  {
    Symbol(i <= 3, if i <= 3 then i + 1 else i)
  }

  /** The first symbol that fits, from candidate i on. */
  function FirstFit(bits: Bits, eccBits: nat, i: nat): Option<Symbol>
    decreases MAX_NB_BITS + 1 - i
  {
    if i > MAX_NB_BITS then None
    else if FitsSymbol(bits, eccBits, Candidate(i)) then Some(Candidate(i))
    else FirstFit(bits, eccBits, i + 1)
  }

  /** The symbol for bits: the one that was asked for, compact for a negative number, or else the first that fits. */
  function SymbolFor(bits: Bits, minECCPercent: nat, userSpecifiedLayers: int): (r: Option<Symbol>)
  {
    var eccBits := EccBits(|bits|, minECCPercent);
    var asked := Asked(userSpecifiedLayers);
    if userSpecifiedLayers == DEFAULT_AZTEC_LAYERS then FirstFit(bits, eccBits, 0)
    else if Possible(asked) && FitsSymbol(bits, eccBits, asked) then Some(asked)
    else None
  }

  function Asked(userSpecifiedLayers: int): Symbol {
    Symbol(userSpecifiedLayers < 0, if userSpecifiedLayers < 0 then -userSpecifiedLayers else userSpecifiedLayers)
  }

  /** It is one of the first 33, it fits, and none before it fits; there is none only if none fits. */
  lemma {:induction false} FirstFitIs(bits: Bits, eccBits: nat, i: nat)
    ensures forall r :: FirstFit(bits, eccBits, i) == Some(r) ==> Possible(r) && FitsSymbol(bits, eccBits, r)
    ensures forall j: nat :: i <= j <= MAX_NB_BITS && FitsSymbol(bits, eccBits, Candidate(j)) ==>
              FirstFit(bits, eccBits, i).Some?
              && exists k: nat :: i <= k <= j && FirstFit(bits, eccBits, i) == Some(Candidate(k))
    decreases MAX_NB_BITS + 1 - i
  {
    hide FitsSymbol, Candidate;
    if i <= MAX_NB_BITS && !FitsSymbol(bits, eccBits, Candidate(i)) {
      FirstFitIs(bits, eccBits, i + 1);
    }
  }

  lemma SymbolForFits(bits: Bits, minECCPercent: nat, userSpecifiedLayers: int)
    ensures forall s :: SymbolFor(bits, minECCPercent, userSpecifiedLayers) == Some(s) ==>
              Possible(s) && FitsSymbol(bits, EccBits(|bits|, minECCPercent), s)
  {
    hide FitsSymbol, FirstFit;
    FirstFitIs(bits, EccBits(|bits|, minECCPercent), 0);
  }

  /** Stuffing never makes a message shorter. */
  lemma {:induction false} StuffedLonger(bits: Bits, i: nat, w: nat)
    requires w >= 2
    ensures w * |Stuffed(bits, i, w)| >= |bits| - i
    decreases if i < |bits| then |bits| - i else 0
  {
    hide Advance, WordFor;
    if i < |bits| {
      var n := Advance(bits, i, w);
      StuffedLonger(bits, i + n, w);
      OneMore(w, |Stuffed(bits, i, w)|);
    }
  }

  /** A symbol with fewer bits than message and error correction need is passed over without stuffing. */
  lemma TooSmall(bits: Bits, eccBits: nat, s: Symbol)
    requires Possible(s) && |bits| + eccBits > TotalBits(s)
    ensures !FitsSymbol(bits, eccBits, s)
  {
    WordSizes(s);
    StuffedLonger(bits, 0, WordSize(s));
    hide Stuffed, TotalBits;
  }

  /** The bits are stuffed for this word size, or not at all yet. */
  ghost predicate StuffedWith(stuffed: Bits, bits: Bits, wordSize: nat) {
    wordSize == 0 || (wordSize > 2 && stuffed == WordsBits(Stuffed(bits, 0, wordSize), wordSize))
  }

  /** The stuffed bits are those for the word size of the symbol that was chosen. */
  ghost predicate StuffedFor(stuffed: Bits, bits: Bits, r: Option<Symbol>) {
    r.Some? ==> Possible(r.value) && stuffed == WordsBits(Stuffed(bits, 0, WordSize(r.value)), WordSize(r.value))
  }

  /** One symbol: stuff the bits unless they are stuffed for its word size, and see if they fit. */
  method StuffAndCheck(bits: Bits, eccBits: nat, s: Symbol, stuffedBits: BitArray, wordSize: nat) returns (fits: bool)
    requires Possible(s)
    requires StuffedWith(stuffedBits.bits, bits, wordSize)
    modifies stuffedBits
    ensures fits <==> FitsSymbol(bits, eccBits, s)
    ensures StuffedWith(stuffedBits.bits, bits, WordSize(s)) && StuffedFor(stuffedBits.bits, bits, Some(s))
  {
    hide Stuffed, WordsBits, TotalBitsInLayer;
    WordSizes(s);
    var totalBitsInLayer := TotalBitsInLayer(s.layers, s.compact);
    var size := WORD_SIZE[s.layers];
    if wordSize != size {
      StuffBits(bits, size, stuffedBits);
    }
    WordsLength(Stuffed(bits, 0, size), size);
    var usableBitsInLayers := totalBitsInLayer - totalBitsInLayer % size;
    AtMost64(|Stuffed(bits, 0, size)|, size);
    if s.compact && |stuffedBits.bits| > size * 64 {
      return false;
    }
    fits := |stuffedBits.bits| + eccBits <= usableBitsInLayers;
  }

  lemma NextCandidate(bits: Bits, eccBits: nat, i: nat)
    requires i <= MAX_NB_BITS
    ensures FirstFit(bits, eccBits, i) ==
            if FitsSymbol(bits, eccBits, Candidate(i)) then Some(Candidate(i)) else FirstFit(bits, eccBits, i + 1)
  {
  }

  lemma NoSymbolLeft(bits: Bits, eccBits: nat)
    ensures FirstFit(bits, eccBits, MAX_NB_BITS + 1) == None
    ensures forall stuffed :: StuffedFor(stuffed, bits, None)
  {
  }

  lemma NotStuffedYet(stuffed: Bits, bits: Bits)
    ensures StuffedWith(stuffed, bits, 0)
  {
  }

  /** Lines 202 to 229: the bits are stuffed again only when the word size changes. */
  method FirstSymbol(bits: Bits, eccBits: nat, stuffedBits: BitArray) returns (r: Option<Symbol>)
    modifies stuffedBits
    ensures r == FirstFit(bits, eccBits, 0) && StuffedFor(stuffedBits.bits, bits, r)
  {
    hide StuffedWith, StuffedFor, FitsSymbol, TotalBitsInLayer, FirstFit, Candidate, Pow2;
    NoSymbolLeft(bits, eccBits);
    NotStuffedYet(stuffedBits.bits, bits);
    var totalSizeBits := |bits| + eccBits;
    var wordSize := 0;
    var i := 0;
    while i <= MAX_NB_BITS
      invariant 0 <= i <= MAX_NB_BITS + 1
      invariant FirstFit(bits, eccBits, i) == FirstFit(bits, eccBits, 0)
      invariant StuffedWith(stuffedBits.bits, bits, wordSize)
    {
      var s := Candidate(i);
      NextCandidate(bits, eccBits, i);
      if totalSizeBits > TotalBitsInLayer(s.layers, s.compact) {
        TooSmall(bits, eccBits, s);
      } else {
        var fits := StuffAndCheck(bits, eccBits, s, stuffedBits, wordSize);
        wordSize := WordSize(s);
        if fits {
          return Some(s);
        }
      }
      i := i + 1;
    }
    return None;
  }

  /** Lines 172 to 229: the symbol and the stuffed bits. */
  method ChooseSymbol(bits: Bits, minECCPercent: nat, userSpecifiedLayers: int)
    returns (r: Option<Symbol>, stuffedBits: BitArray)
    ensures fresh(stuffedBits) && r == SymbolFor(bits, minECCPercent, userSpecifiedLayers)
    ensures StuffedFor(stuffedBits.bits, bits, r)
  {
    hide StuffedWith, StuffedFor, FitsSymbol, TotalBitsInLayer, FirstFit, WordSize;
    var eccBits := |bits| * minECCPercent / 100 + 11;
    stuffedBits := new BitArray();
    NoSymbolLeft(bits, eccBits);
    NotStuffedYet(stuffedBits.bits, bits);
    if userSpecifiedLayers == DEFAULT_AZTEC_LAYERS {
      r := FirstSymbol(bits, eccBits, stuffedBits);
      return;
    }
    var compact := userSpecifiedLayers < 0;
    var layers := if userSpecifiedLayers < 0 then -userSpecifiedLayers else userSpecifiedLayers;
    r := None;
    if layers > (if compact then MAX_NB_BITS_COMPACT else MAX_NB_BITS) {
      return;
    }
    var fits := StuffAndCheck(bits, eccBits, Symbol(compact, layers), stuffedBits, 0);
    if fits {
      r := Some(Symbol(compact, layers));
    }
  }

  lemma AtMost64(n: nat, w: nat)
    requires w > 0
    ensures w * n > w * 64 <==> n > 64
  {
    if n > 64 {
      MulMonotone(65, n, w);
    } else {
      MulMonotone(n, 64, w);
    }
  }
}
