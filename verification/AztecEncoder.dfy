// The search of the Aztec text encoder (zxing-core/src/aztec/AZHighLevelEncoder.cpp:219-375): every state that is kept
// stands for the text read so far, and the first of the shortest states in the end is the one that is written out.
module AztecEncoder {
  import opened BitOps
  import opened BitStream
  import opened BitOutput
  import opened BitArrays
  import opened AztecDecoder
  import opened AztecCodes
  import opened AztecTokens
  import opened AztecStates

  ghost predicate AllGood(states: seq<EncodingState>, text: seq<Byte>, index: nat) {
    forall i :: 0 <= i < |states| ==> Good(states[i], text, index)
  }

  /** What the two characters at `index` count as: one of the four pairs of PUNCT, or zero. */
  function PairCode(text: seq<Byte>, index: nat): nat
    requires index < |text|
  {
    var nextChar := if index + 1 < |text| then text[index + 1] else 0;
    if text[index] == 13 then if nextChar == 10 then 2 else 0
    else if text[index] == 46 then if nextChar == 32 then 3 else 0
    else if text[index] == 44 then if nextChar == 32 then 4 else 0
    else if text[index] == 58 then if nextChar == 32 then 5 else 0
    else 0
  }

  lemma PairCodeSmall(text: seq<Byte>, index: nat)
    requires index < |text|
    ensures PairCode(text, index) <= 5 && (PairCode(text, index) > 0 ==> index + 2 <= |text|)
  {
  }

  lemma PairStands(text: seq<Byte>, index: nat)
    requires index < |text| && PairCode(text, index) > 0
    ensures index + 2 <= |text| && CodeStands(MODE_PUNCT, PairCode(text, index), text[index..index + 2])
    ensures PairCode(text, index) == 3 || PairCode(text, index) == 4 ==>
              && CodeStands(MODE_DIGIT, 16 - PairCode(text, index), text[index..index + 1])
              && CodeStands(MODE_DIGIT, 1, text[index + 1..index + 2])
  {
    var code := PairCode(text, index);
    assert text[index..index + 2] == [text[index], text[index + 1]];
    assert GetCharacter(PUNCT, code) == Text([text[index], text[index + 1]]);
    if code == 3 || code == 4 {
      assert text[index..index + 1] == [text[index]] && text[index + 1..index + 2] == [32];
      assert GetCharacter(DIGIT, 16 - code) == Text([text[index]]) && GetCharacter(DIGIT, 1) == Text([32]);
    }
  }

  lemma CharStands(text: seq<Byte>, index: nat, mode: nat)
    requires index < |text| && mode <= MODE_PUNCT && CharMap(mode, text[index]) > 0
    ensures CodeStands(mode, CharMap(mode, text[index]), text[index..index + 1])
  {
    CharDecodes(mode, text[index]);
    assert MIXED_TABLE[26] == 0x7d;
  }

  /** The ways of going on with a pair, in the order in which they are tried. */
  function PairStates(state: EncodingState, index: nat, pairCode: nat): seq<EncodingState>
    requires pairCode <= 16
  {
    var plain := EndBinaryShift(state, index);
    [LatchAndAppend(plain, MODE_PUNCT, pairCode)]
    + (if state.mode != MODE_PUNCT then [ShiftAndAppend(plain, MODE_PUNCT, pairCode)] else [])
    + (if pairCode == 3 || pairCode == 4 then
         [LatchAndAppend(LatchAndAppend(plain, MODE_DIGIT, 16 - pairCode), MODE_DIGIT, 1)] else [])
    + (if state.binaryShiftByteCount > 0 then [AddBinaryShiftChar(AddBinaryShiftChar(state, index), index + 1)] else [])
  }

  /** The ways of going on with one character by codes of the modes from `mode` on. */
  function CodeStates(state: EncodingState, ch: Byte, index: nat, mode: nat): seq<EncodingState>
    requires mode <= MODE_PUNCT + 1
    decreases MODE_PUNCT + 1 - mode
  {
    if mode > MODE_PUNCT then []
    else ModeStates(state, ch, index, mode) + CodeStates(state, ch, index, mode + 1)
  }

  /** By a code of one mode: a mode that has the character is latched to or shifted to where that can pay off. */
  function ModeStates(state: EncodingState, ch: Byte, index: nat, mode: nat): seq<EncodingState> {
    var code, here := CharMap(mode, ch), CharMap(state.mode, ch) > 0;
    if code == 0 then []
    else
      (if !here || mode == state.mode || mode == MODE_DIGIT then
         [LatchAndAppend(EndBinaryShift(state, index), mode, code)] else [])
      + (if !here && ShiftTable(state.mode, mode) >= 0 then
           [ShiftAndAppend(EndBinaryShift(state, index), mode, code)] else [])
  }

  /** The ways of going on with one character. */
  function CharStates(state: EncodingState, ch: Byte, index: nat): seq<EncodingState> {
    CodeStates(state, ch, index, 0) + BinaryStates(state, ch, index)
  }

  /** And in binary, unless the current mode has the character and no run is pending. */
  function BinaryStates(state: EncodingState, ch: Byte, index: nat): seq<EncodingState> {
    if state.binaryShiftByteCount > 0 || CharMap(state.mode, ch) == 0 then [AddBinaryShiftChar(state, index)] else []
  }

  // ----- the search as a function

  /** A kept list with one state more: it is left out if a kept state is as good, and drops those that are no better. */
  function Merged(kept: seq<EncodingState>, newState: EncodingState, k: nat): seq<EncodingState>
    requires k <= |kept|
    decreases |kept| - k
  {
    if k == |kept| then kept + [newState]
    else if IsBetterThanOrEqualTo(kept[k], newState) then kept
    else if IsBetterThanOrEqualTo(newState, kept[k]) then Merged(kept[..k] + kept[k + 1..], newState, k)
    else Merged(kept, newState, k + 1)
  }

  function Simplified(states: seq<EncodingState>): seq<EncodingState> {
    if |states| == 0 then [] else Merged(Simplified(states[..|states| - 1]), states[|states| - 1], 0)
  }

  /** All ways of going on from all states. */
  function AllPairStates(states: seq<EncodingState>, index: nat, pairCode: nat): seq<EncodingState>
    requires pairCode <= 16
  {
    if |states| == 0 then []
    else AllPairStates(states[..|states| - 1], index, pairCode) + PairStates(states[|states| - 1], index, pairCode)
  }

  function AllCharStates(states: seq<EncodingState>, ch: Byte, index: nat): seq<EncodingState> {
    if |states| == 0 then []
    else AllCharStates(states[..|states| - 1], ch, index) + CharStates(states[|states| - 1], ch, index)
  }

  /** A single state is not compared with anything. */
  function SimplifiedIfMany(states: seq<EncodingState>): seq<EncodingState> {
    if |states| > 1 then Simplified(states) else states
  }

  /** The states at the end of the text, from those at `index` on. */
  function Search(text: seq<Byte>, index: nat, states: seq<EncodingState>): seq<EncodingState>
    requires index <= |text|
    decreases |text| - index
  {
    if index == |text| then states
    else
      PairCodeSmall(text, index);
      var pairCode := PairCode(text, index);
      if pairCode > 0 then Search(text, index + 2, Simplified(AllPairStates(states, index, pairCode)))
      else Search(text, index + 1, SimplifiedIfMany(AllCharStates(states, text[index], index)))
  }

  const START := EncodingState([], MODE_UPPER, 0, 0)

  function Found(text: seq<Byte>): seq<EncodingState> {
    Search(text, 0, [START])
  }

  /** The first of the states with the fewest bits. */
  function FirstShortest(states: seq<EncodingState>): EncodingState
    requires |states| > 0
  {
    if |states| == 1 then states[0]
    else
      var best, last := FirstShortest(states[..|states| - 1]), states[|states| - 1];
      if last.bitCount < best.bitCount then last else best
  }

  /** It is there, none is shorter, and those before it are longer. */
  lemma {:induction false} FirstShortestIs(states: seq<EncodingState>) returns (i: nat)
    requires |states| > 0
    ensures i < |states| && FirstShortest(states) == states[i]
    ensures forall k :: 0 <= k < |states| ==> states[i].bitCount <= states[k].bitCount
    ensures forall k :: 0 <= k < i ==> states[i].bitCount < states[k].bitCount
  {
    if |states| == 1 {
      i := 0;
    } else {
      i := FirstShortestIs(states[..|states| - 1]);
      if states[|states| - 1].bitCount < states[i].bitCount {
        i := |states| - 1;
      }
    }
  }

  /** The tokens that are written out for a text. */
  function ChosenTokens(text: seq<Byte>): seq<Token>
    requires |Found(text)| > 0
  {
    EndBinaryShift(FirstShortest(Found(text)), |text|).tokens
  }

  // ----- every way of going on stands for the text

  lemma GoodBoth(a: seq<EncodingState>, b: seq<EncodingState>, text: seq<Byte>, index: nat)
    requires AllGood(a, text, index) && AllGood(b, text, index)
    ensures AllGood(a + b, text, index)
  {
    hide Good;
  }

  lemma NoRunAfterLatch(state: EncodingState, mode: nat, value: nat)
    ensures LatchAndAppend(state, mode, value).binaryShiftByteCount == 0
  {
  }

  lemma GoodStands(state: EncodingState, text: seq<Byte>, index: nat)
    requires Good(state, text, index)
    ensures Stands(state, text, index)
  {
  }

  /** Every mode but PUNCT itself can shift to PUNCT. */
  lemma ShiftToPunct(mode: nat)
    ensures mode < MODE_PUNCT ==> ShiftTable(mode, MODE_PUNCT) >= 0
  {
  }

  /** Every way of going on with a pair stands for the text with the pair. */
  lemma PairStatesGood(state: EncodingState, text: seq<Byte>, index: nat, pairCode: nat)
    requires index < |text| <= 32768 && 16 >= pairCode == PairCode(text, index) > 0 && Good(state, text, index)
    ensures AllGood(PairStates(state, index, pairCode), text, index + 2)
    ensures |PairStates(state, index, pairCode)| > 0
  {
    hide Good, Stands, CodeStands, LatchAndAppend, ShiftAndAppend, AddBinaryShiftChar, EndBinaryShift, PairCode,
      TableOf, LatchTable, CanShiftBinary, Walk;
    ShiftToPunct(state.mode);
    hide ShiftTable;
    PairStands(text, index);
    GoodBounds(state, text, index);
    GoodStands(state, text, index);
    EndBinaryShiftGood(state, text, index);
    var plain := EndBinaryShift(state, index);
    LatchAndAppendGood(plain, text, index, MODE_PUNCT, pairCode, index + 2);
    if state.mode != MODE_PUNCT {
      ShiftAndAppendGood(plain, text, index, MODE_PUNCT, pairCode, index + 2);
    }
    if pairCode == 3 || pairCode == 4 {
      LatchAndAppendGood(plain, text, index, MODE_DIGIT, 16 - pairCode, index + 1);
      NoRunAfterLatch(plain, MODE_DIGIT, 16 - pairCode);
      LatchAndAppendGood(LatchAndAppend(plain, MODE_DIGIT, 16 - pairCode), text, index + 1, MODE_DIGIT, 1, index + 2);
    }
    if state.binaryShiftByteCount > 0 {
      AddBinaryShiftCharGood(state, text, index);
      AddBinaryShiftCharGood(AddBinaryShiftChar(state, index), text, index + 1);
    }
  }

  /** Every code for a character stands for the text with it. */
  lemma ModeStatesGood(state: EncodingState, text: seq<Byte>, index: nat, mode: nat)
    requires index < |text| <= 32768 && mode <= MODE_PUNCT && Good(state, text, index)
    ensures AllGood(ModeStates(state, text[index], index, mode), text, index + 1)
  {
    hide Good, Stands, CodeStands, LatchAndAppend, ShiftAndAppend, EndBinaryShift, CharMap, ShiftTable, TableOf,
      LatchTable, CanShiftBinary, Walk;
    GoodBounds(state, text, index);
    GoodStands(state, text, index);
    EndBinaryShiftGood(state, text, index);
    var plain, code := EndBinaryShift(state, index), CharMap(mode, text[index]);
    if code > 0 {
      CharStands(text, index, mode);
      LatchAndAppendGood(plain, text, index, mode, code, index + 1);
      if ShiftTable(state.mode, mode) >= 0 {
        ShiftAndAppendGood(plain, text, index, mode, code, index + 1);
      }
    }
  }

  lemma {:induction false} CodeStatesGood(state: EncodingState, text: seq<Byte>, index: nat, mode: nat)
    requires index < |text| <= 32768 && mode <= MODE_PUNCT + 1 && Good(state, text, index)
    ensures AllGood(CodeStates(state, text[index], index, mode), text, index + 1)
    ensures mode <= state.mode <= MODE_PUNCT && CharMap(state.mode, text[index]) > 0 ==>
              |CodeStates(state, text[index], index, mode)| > 0
    decreases MODE_PUNCT + 1 - mode
  {
    hide Good, CharMap, LatchAndAppend, ShiftAndAppend, EndBinaryShift;
    if mode <= MODE_PUNCT {
      ModeStatesGood(state, text, index, mode);
      CodeStatesGood(state, text, index, mode + 1);
      GoodBoth(ModeStates(state, text[index], index, mode), CodeStates(state, text[index], index, mode + 1), text,
               index + 1);
    }
  }

  /** Every way of going on with a character stands for the text with it, and there is at least one. */
  lemma CharStatesGood(state: EncodingState, text: seq<Byte>, index: nat)
    requires index < |text| <= 32768 && Good(state, text, index)
    ensures AllGood(CharStates(state, text[index], index), text, index + 1)
    ensures |CharStates(state, text[index], index)| > 0
  {
    hide Good, Stands, CharMap, AddBinaryShiftChar, CodeStates, TableOf, CanShiftBinary, Walk;
    GoodBounds(state, text, index);
    GoodStands(state, text, index);
    CodeStatesGood(state, text, index, 0);
    AddBinaryShiftCharGood(state, text, index);
    GoodBoth(CodeStates(state, text[index], index, 0), BinaryStates(state, text[index], index), text, index + 1);
  }

  /** UpdateStateForPair. */
  method UpdateStateForPair(state: EncodingState, index: nat, pairCode: nat, list: seq<EncodingState>)
    returns (result: seq<EncodingState>)
    requires pairCode <= 16
    ensures result == list + PairStates(state, index, pairCode)
  {
    hide LatchAndAppend, ShiftAndAppend, AddBinaryShiftChar, EndBinaryShift;
    var stateNoBinary := EndBinaryShift(state, index);
    result := list + [LatchAndAppend(stateNoBinary, MODE_PUNCT, pairCode)];
    if state.mode != MODE_PUNCT {
      result := result + [ShiftAndAppend(stateNoBinary, MODE_PUNCT, pairCode)];
    }
    if pairCode == 3 || pairCode == 4 {
      var digitState := LatchAndAppend(stateNoBinary, MODE_DIGIT, 16 - pairCode);
      result := result + [LatchAndAppend(digitState, MODE_DIGIT, 1)];
    }
    if state.binaryShiftByteCount > 0 {
      result := result + [AddBinaryShiftChar(AddBinaryShiftChar(state, index), index + 1)];
    }
  }

  /** UpdateStateForChar. */
  method UpdateStateForChar(state: EncodingState, text: seq<Byte>, index: nat, list: seq<EncodingState>)
    returns (result: seq<EncodingState>)
    requires index < |text|
    ensures result == list + CharStates(state, text[index], index)
  {
    hide ModeStates, CodeStates, CharMap, AddBinaryShiftChar;
    var ch := text[index];
    var charInCurrentTable := CharMap(state.mode, ch) > 0;
    result := list;
    var mode := 0;
    while mode <= MODE_PUNCT
      invariant 0 <= mode <= MODE_PUNCT + 1
      invariant result + CodeStates(state, ch, index, mode) == list + CodeStates(state, ch, index, 0)
    {
      NextMode(result, state, ch, index, mode);
      result := TryMode(state, ch, charInCurrentTable, index, mode, result);
      mode := mode + 1;
    }
    NextMode(result, state, ch, index, mode);
    if state.binaryShiftByteCount > 0 || CharMap(state.mode, ch) == 0 {
      result := result + [AddBinaryShiftChar(state, index)];
    }
  }

  lemma NextMode(before: seq<EncodingState>, state: EncodingState, ch: Byte, index: nat, mode: nat)
    requires mode <= MODE_PUNCT + 1
    ensures before + CodeStates(state, ch, index, mode) ==
            if mode > MODE_PUNCT then before
            else before + ModeStates(state, ch, index, mode) + CodeStates(state, ch, index, mode + 1)
  {
    hide ModeStates;
  }

  /** Lines 300 to 324: one mode. */
  method TryMode(state: EncodingState, ch: Byte, charInCurrentTable: bool, index: nat, mode: nat,
                 list: seq<EncodingState>)
    returns (result: seq<EncodingState>)
    requires charInCurrentTable == (CharMap(state.mode, ch) > 0)
    ensures result == list + ModeStates(state, ch, index, mode)
  {
    hide LatchAndAppend, ShiftAndAppend, EndBinaryShift, CharMap, ShiftTable;
    result := list;
    var charInMode := CharMap(mode, ch);
    if charInMode > 0 {
      var stateNoBinary := EndBinaryShift(state, index);
      if !charInCurrentTable || mode == state.mode || mode == MODE_DIGIT {
        result := result + [LatchAndAppend(stateNoBinary, mode, charInMode)];
      }
      if !charInCurrentTable && ShiftTable(state.mode, mode) >= 0 {
        result := result + [ShiftAndAppend(stateNoBinary, mode, charInMode)];
      }
    }
  }

  predicate AllModes(states: seq<EncodingState>) {
    forall i :: 0 <= i < |states| ==> states[i].mode <= MODE_PUNCT
  }

  /** Some kept state is better than this one, or equal. */
  predicate Covered(s: EncodingState, kept: seq<EncodingState>) {
    exists k :: 0 <= k < |kept| && IsBetterThanOrEqualTo(kept[k], s)
  }

  predicate AllCovered(states: seq<EncodingState>, kept: seq<EncodingState>) {
    forall i :: 0 <= i < |states| ==> Covered(states[i], kept)
  }

  /** No kept state is better than or equal to another one. */
  predicate Incomparable(kept: seq<EncodingState>) {
    forall j, k :: 0 <= j < |kept| && 0 <= k < |kept| && j != k ==> !IsBetterThanOrEqualTo(kept[j], kept[k])
  }

  /** SimplifyStates: the kept states are some of the list, none of them dispensable, and cover all the others. */
  method SimplifyStates(states: seq<EncodingState>) returns (result: seq<EncodingState>)
    requires AllModes(states)
    ensures forall s :: s in result ==> s in states
    ensures Incomparable(result) && AllCovered(states, result)
    ensures |states| > 0 ==> |result| > 0
    ensures result == Simplified(states)
  {
    hide IsBetterThanOrEqualTo, Covered, Merged;
    result := [];
    var i := 0;
    while i < |states|
      invariant i <= |states| && AllModes(result)
      invariant forall s :: s in result ==> s in states[..i]
      invariant Incomparable(result) && AllCovered(states[..i], result)
      invariant result == Simplified(states[..i])
    {
      result := MergeState(states[..i], result, states[i]);
      assert states[..i + 1] == states[..i] + [states[i]];
      assert states[..i + 1][..i] == states[..i];
      i := i + 1;
    }
    assert states[..|states|] == states;
    if |states| > 0 {
      CoveredBySome(states[0], result);
    }
  }

  lemma CoveredBySome(s: EncodingState, kept: seq<EncodingState>)
    requires Covered(s, kept)
    ensures |kept| > 0
  {
  }

  /** Lines 257 to 274: one state more. */
  method MergeState(ghost seen: seq<EncodingState>, kept: seq<EncodingState>, newState: EncodingState)
    returns (result: seq<EncodingState>)
    requires AllModes(seen) && AllModes(kept) && newState.mode <= MODE_PUNCT
    requires Incomparable(kept) && AllCovered(seen, kept)
    ensures AllModes(result) && forall s :: s in result ==> s in kept || s == newState
    ensures Incomparable(result) && AllCovered(seen + [newState], result)
    ensures result == Merged(kept, newState, 0)
  {
    hide IsBetterThanOrEqualTo, Covered;
    result := kept;
    CoveredWithNew(seen, kept, newState);
    var k := 0;
    while k < |result|
      invariant k <= |result| && AllModes(result) && forall s :: s in result ==> s in kept
      invariant Incomparable(result) && AllCovered(seen + [newState], result + [newState])
      invariant forall q :: 0 <= q < k ==>
        !IsBetterThanOrEqualTo(result[q], newState) && !IsBetterThanOrEqualTo(newState, result[q])
      invariant Merged(result, newState, k) == Merged(kept, newState, 0)
      decreases |result| - k
    {
      var oldState := result[k];
      if IsBetterThanOrEqualTo(oldState, newState) {
        NewDispensable(seen + [newState], result, k, newState);
        return;
      }
      if IsBetterThanOrEqualTo(newState, oldState) {
        OldDispensable(seen + [newState], result, k, newState);
        result := result[..k] + result[k + 1..];
      } else {
        k := k + 1;
      }
    }
    result := result + [newState];
  }

  lemma CoveredWithNew(seen: seq<EncodingState>, kept: seq<EncodingState>, newState: EncodingState)
    requires AllCovered(seen, kept) && newState.mode <= MODE_PUNCT
    ensures AllCovered(seen + [newState], kept + [newState])
  {
    BetterReflexive(newState);
    hide IsBetterThanOrEqualTo;
    assert (kept + [newState])[|kept|] == newState;
    assert Covered(newState, kept + [newState]);
    forall i | 0 <= i < |seen| ensures Covered(seen[i], kept + [newState]) {
      assert Covered(seen[i], kept);
      var k :| 0 <= k < |kept| && IsBetterThanOrEqualTo(kept[k], seen[i]);
      assert (kept + [newState])[k] == kept[k];
    }
  }

  lemma NewDispensable(seen: seq<EncodingState>, kept: seq<EncodingState>, k: nat, newState: EncodingState)
    requires AllModes(seen) && AllModes(kept) && newState.mode <= MODE_PUNCT
    requires AllCovered(seen, kept + [newState]) && k < |kept| && IsBetterThanOrEqualTo(kept[k], newState)
    ensures AllCovered(seen, kept)
  {
    hide IsBetterThanOrEqualTo;
    forall i | 0 <= i < |seen| ensures Covered(seen[i], kept) {
      var q :| 0 <= q <= |kept| && IsBetterThanOrEqualTo((kept + [newState])[q], seen[i]);
      if q < |kept| {
        assert kept[q] == (kept + [newState])[q];
      } else {
        BetterTransitive(kept[k], newState, seen[i]);
      }
    }
  }

  lemma OldDispensable(seen: seq<EncodingState>, kept: seq<EncodingState>, k: nat, newState: EncodingState)
    requires AllModes(seen) && AllModes(kept) && newState.mode <= MODE_PUNCT
    requires AllCovered(seen, kept + [newState]) && k < |kept| && IsBetterThanOrEqualTo(newState, kept[k])
    ensures AllCovered(seen, kept[..k] + kept[k + 1..] + [newState])
  {
    hide IsBetterThanOrEqualTo;
    var fewer := kept[..k] + kept[k + 1..] + [newState];
    forall i | 0 <= i < |seen| ensures Covered(seen[i], fewer) {
      var q :| 0 <= q <= |kept| && IsBetterThanOrEqualTo((kept + [newState])[q], seen[i]);
      if q < k {
        assert fewer[q] == kept[q];
      } else if q == k {
        BetterTransitive(newState, kept[k], seen[i]);
        assert fewer[|kept| - 1] == newState;
      } else {
        assert fewer[q - 1] == (kept + [newState])[q];
      }
    }
  }

  /** Pruning loses no length: the shortest kept state is as short as the shortest of the list. */
  lemma ShortestKept(states: seq<EncodingState>, kept: seq<EncodingState>, s: EncodingState)
    requires AllModes(states) && AllModes(kept) && AllCovered(states, kept) && s in states
    ensures exists r :: r in kept && r.bitCount <= s.bitCount
  {
    hide IsBetterThanOrEqualTo;
    var i :| 0 <= i < |states| && states[i] == s;
    assert Covered(states[i], kept);
    assert exists k :: 0 <= k < |kept| && IsBetterThanOrEqualTo(kept[k], s);
    var k :| 0 <= k < |kept| && IsBetterThanOrEqualTo(kept[k], s);
    BetterIsShorter(kept[k], s);
    assert kept[k] in kept;
  }

  lemma GoodModes(states: seq<EncodingState>, text: seq<Byte>, index: nat)
    requires AllGood(states, text, index)
    ensures AllModes(states)
  {
    hide Good;
    forall i | 0 <= i < |states| ensures states[i].mode <= MODE_PUNCT {
      GoodStands(states[i], text, index);
    }
  }

  lemma SubsetGood(states: seq<EncodingState>, kept: seq<EncodingState>, text: seq<Byte>, index: nat)
    requires AllGood(states, text, index) && forall s :: s in kept ==> s in states
    ensures AllGood(kept, text, index)
  {
    hide Good;
    forall i | 0 <= i < |kept|
      ensures Good(kept[i], text, index)
    {
      assert kept[i] in states;
    }
  }

  method UpdateStateListForPair(states: seq<EncodingState>, ghost text: seq<Byte>, index: nat, pairCode: nat)
    returns (result: seq<EncodingState>)
    requires index < |text| <= 32768 && 16 >= pairCode == PairCode(text, index) > 0
    requires AllGood(states, text, index) && |states| > 0
    ensures AllGood(result, text, index + 2) && |result| > 0
    ensures forall s :: s in states ==> AllCovered(PairStates(s, index, pairCode), result)
    ensures result == Simplified(AllPairStates(states, index, pairCode))
  {
    hide Good, Incomparable, AllCovered, AllModes, PairStates, PairCode, Simplified;
    var all: seq<EncodingState> := [];
    var i := 0;
    while i < |states|
      invariant i <= |states| && AllGood(all, text, index + 2) && |all| >= i
      invariant forall k :: 0 <= k < i ==> Contains(all, PairStates(states[k], index, pairCode))
      invariant all == AllPairStates(states[..i], index, pairCode)
    {
      assert states[..i + 1][..i] == states[..i];
      PairStatesGood(states[i], text, index, pairCode);
      GoodBoth(all, PairStates(states[i], index, pairCode), text, index + 2);
      ghost var before := all;
      all := UpdateStateForPair(states[i], index, pairCode, all);
      ContainsMore(before, PairStates(states[i], index, pairCode));
      i := i + 1;
    }
    assert states[..|states|] == states;
    GoodModes(all, text, index + 2);
    result := SimplifyStates(all);
    SubsetGood(all, result, text, index + 2);
    forall s | s in states ensures AllCovered(PairStates(s, index, pairCode), result) {
      PartCovered(all, PairStates(s, index, pairCode), result);
    }
  }

  predicate Contains(all: seq<EncodingState>, part: seq<EncodingState>) {
    forall i :: 0 <= i < |part| ==> part[i] in all
  }

  lemma ContainsMore(before: seq<EncodingState>, more: seq<EncodingState>)
    ensures Contains(before + more, more)
    ensures forall part :: Contains(before, part) ==> Contains(before + more, part)
  {
  }

  lemma PartCovered(all: seq<EncodingState>, part: seq<EncodingState>, kept: seq<EncodingState>)
    requires AllCovered(all, kept) && Contains(all, part)
    ensures AllCovered(part, kept)
  {
    hide Covered;
    forall i | 0 <= i < |part| ensures Covered(part[i], kept) {
      assert part[i] in all;
    }
  }

  method UpdateStateListForChar(states: seq<EncodingState>, text: seq<Byte>, index: nat)
    returns (result: seq<EncodingState>)
    requires index < |text| <= 32768 && AllGood(states, text, index) && |states| > 0
    ensures AllGood(result, text, index + 1) && |result| > 0
    ensures forall s :: s in states ==> AllCovered(CharStates(s, text[index], index), result)
    ensures result == SimplifiedIfMany(AllCharStates(states, text[index], index))
  {
    hide Good, Incomparable, AllCovered, AllModes, CharStates, Simplified;
    var all: seq<EncodingState> := [];
    var i := 0;
    while i < |states|
      invariant i <= |states| && AllGood(all, text, index + 1) && |all| >= i
      invariant forall k :: 0 <= k < i ==> Contains(all, CharStates(states[k], text[index], index))
      invariant all == AllCharStates(states[..i], text[index], index)
    {
      assert states[..i + 1][..i] == states[..i];
      CharStatesGood(states[i], text, index);
      GoodBoth(all, CharStates(states[i], text[index], index), text, index + 1);
      ghost var before := all;
      all := UpdateStateForChar(states[i], text, index, all);
      ContainsMore(before, CharStates(states[i], text[index], index));
      i := i + 1;
    }
    assert states[..|states|] == states;
    GoodModes(all, text, index + 1);
    result := all;
    if |result| > 1 {
      result := SimplifyStates(result);
    } else {
      AllCoverThemselves(all);
    }
    SubsetGood(all, result, text, index + 1);
    forall s | s in states ensures AllCovered(CharStates(s, text[index], index), result) {
      PartCovered(all, CharStates(s, text[index], index), result);
    }
  }

  lemma AllCoverThemselves(states: seq<EncodingState>)
    requires AllModes(states)
    ensures AllCovered(states, states)
  {
    hide IsBetterThanOrEqualTo;
    forall i | 0 <= i < |states| ensures Covered(states[i], states) {
      BetterReflexive(states[i]);
    }
  }

  /** At the end the tokens decode to the whole text. */
  lemma FinalState(state: EncodingState, text: seq<Byte>)
    requires Good(state, text, |text|) && |text| <= 32768
    ensures var tokens := EndBinaryShift(state, |text|).tokens;
      && AllFit(tokens, |text|) && |TokensBits(tokens, text)| == state.bitCount
      && Encodes(TokensBits(tokens, text), In(UPPER), In(TableOf(state.mode)), text, !Swaps(tokens))
  {
    hide Encodes, TokenBits, TableOf, TokensBits, Walk;
    GoodStands(state, text, |text|);
    EndBinaryShiftGood(state, text, |text|);
    NoRun();
    assert text[..|text|] == text;
  }

  /** ToBitArray: the bits of all tokens, as many as the state counted. */
  method ToBitArray(state: EncodingState, text: seq<Byte>) returns (bits: Bits)
    requires Good(state, text, |text|) && |text| <= 32768
    ensures var tokens := EndBinaryShift(state, |text|).tokens;
      && AllFit(tokens, |text|) && bits == TokensBits(tokens, text) && |bits| == state.bitCount
      && Encodes(bits, In(UPPER), In(TableOf(state.mode)), text, !Swaps(tokens))
  {
    hide Encodes, TokenBits, TableOf, Good, EndBinaryShift, Fits, Walk;
    var endState := EndBinaryShift(state, |text|);
    FinalState(state, text);
    var tokens := endState.tokens;
    var bitArray := new BitArray();
    var i := 0;
    while i < |tokens|
      invariant i <= |tokens| && AllFit(tokens, |text|) && bitArray.bits == TokensBits(tokens[..i], text)
    {
      assert tokens[..i + 1][..i] == tokens[..i];
      AppendTo(tokens[i], bitArray, text);
      i := i + 1;
    }
    assert tokens[..|tokens|] == tokens && text[..|text|] == text;
    bits := bitArray.bits;
  }

  lemma ShortestMore(states: seq<EncodingState>, i: nat)
    requires 0 < i < |states|
    ensures var best := FirstShortest(states[..i]);
      FirstShortest(states[..i + 1]) == if states[i].bitCount < best.bitCount then states[i] else best
  {
    assert states[..i + 1][..i] == states[..i];
  }

  /** std::min_element by bit count: the first of the shortest. */
  method MinState(states: seq<EncodingState>) returns (best: EncodingState)
    requires |states| > 0
    ensures best == FirstShortest(states)
  {
    best := states[0];
    var i := 1;
    assert FirstShortest(states[..1]) == best;
    hide FirstShortest;
    while i < |states|
      invariant 1 <= i <= |states| && best == FirstShortest(states[..i])
    {
      ShortestMore(states, i);
      if states[i].bitCount < best.bitCount {
        best := states[i];
      }
      i := i + 1;
    }
    assert states[..|states|] == states;
  }

  lemma StartGood(text: seq<Byte>)
    ensures Good(START, text, 0)
  {
    hide Moves;
    MovesNothing(In(UPPER));
    assert text[..0] == [];
    EncodesIs([], In(UPPER), In(UPPER), [], []);
  }

  /** Bits that encode a text decode to it, up to the 0x7d difference. */
  lemma EncodesDecodes(bits: Bits, t: Table, text: seq<Byte>, exact: bool) returns (decoded: seq<Byte>)
    requires Encodes(bits, In(UPPER), In(t), text, exact)
    ensures Similar(decoded, text) && (decoded == text <==> exact) && Moves(bits, In(UPPER), In(t), decoded)
    ensures Decode(bits) == Decoded(Chars(decoded))
  {
    decoded :| Similar(decoded, text) && (decoded == text <==> exact) && Moves(bits, In(UPPER), In(t), decoded);
    MovesUse(bits, In(UPPER), In(t), decoded, |bits|, [], []);
    assert bits + [] == bits && [] + Chars(decoded) == Chars(decoded);
  }

  /**
   * HighLevelEncoder::Encode: the bits of the first of the shortest states that the search finds. They decode to the
   * text, but that some 0x7d may come back as 0x7e; and they decode to the text itself if and only if no token is
   * code 26 of MIXED.
   */
  method Encode(text: seq<Byte>) returns (bits: Bits, ghost decoded: seq<Byte>, ghost table: Table)
    requires |text| <= 32768
    ensures |Found(text)| > 0 && AllFit(ChosenTokens(text), |text|) && bits == TokensBits(ChosenTokens(text), text)
    ensures table == TableOf(FirstShortest(Found(text)).mode) && Moves(bits, In(UPPER), In(table), decoded)
    ensures Similar(decoded, text) && Decode(bits) == Decoded(Chars(decoded))
    ensures decoded == text <==> !Swaps(ChosenTokens(text))
    ensures 0x7d !in text ==> decoded == text
  {
    hide Good, Encodes, Decode, PairCode, Moves, Simplified, SimplifiedIfMany, AllPairStates, AllCharStates, Walk,
      TableOf, EndBinaryShift, TokensBits, Fits;
    var states := [EncodingState([], MODE_UPPER, 0, 0)];
    StartGood(text);
    var index := 0;
    while index < |text|
      invariant index <= |text| && AllGood(states, text, index) && |states| > 0
      invariant Search(text, index, states) == Found(text)
    {
      var pairCode := PairCode(text, index);
      PairCodeSmall(text, index);
      if pairCode > 0 {
        states := UpdateStateListForPair(states, text, index, pairCode);
        index := index + 1;
      } else {
        states := UpdateStateListForChar(states, text, index);
      }
      index := index + 1;
    }
    var minState := MinState(states);
    ghost var chosen := FirstShortestIs(states);
    bits := ToBitArray(minState, text);
    table := TableOf(minState.mode);
    decoded := EncodesDecodes(bits, table, text, !Swaps(ChosenTokens(text)));
    if 0x7d !in text {
      assert decoded == text;
    }
  }

  /** Encoding a text without byte 0x7d and decoding the bits gives the text back. */
  method RoundTrip(text: seq<Byte>) returns (bits: Bits, items: seq<Item>)
    requires |text| <= 32768 && 0x7d !in text
    ensures items == Chars(text)
  {
    hide Decode;
    ghost var decoded, table;
    bits, decoded, table := Encode(text);
    var r := DecodeContent(bits);
    items := r.items;
  }
}
