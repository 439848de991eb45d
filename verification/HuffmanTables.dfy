// The decoder's Huffman tables (stb/stb_image.h:4095-4167).
module HuffmanTables {
  import opened BitOps
  import opened BitStream
  import opened BitOutput
  import opened CanonicalCode
  import opened BitReversal

  const ZFAST_BITS: nat := 9
  const ZNSYMS: nat := 288

  /** How many of the first n symbols have a code of fewer than s bits. */
  function Below(lens: Lengths, n: nat, s: nat): (c: nat)
    requires n <= |lens|
    ensures c <= n
  {
    if n == 0 then 0 else Below(lens, n - 1, s) + (if 1 <= lens[n - 1] < s then 1 else 0)
  }

  lemma {:induction false} BelowNext(lens: Lengths, n: nat, s: nat)
    requires n <= |lens| && s >= 1
    ensures Below(lens, n, s + 1) == Below(lens, n, s) + CountTo(lens, n, s)
    ensures Below(lens, n, 1) == 0
  {
    if n > 0 {
      BelowNext(lens, n - 1, s);
    }
  }

  lemma {:induction false} BelowGrows(lens: Lengths, n: nat, s: nat, t: nat)
    requires n <= |lens| && s <= t
    ensures Below(lens, n, s) <= Below(lens, n, t)
  {
    if n > 0 {
      BelowGrows(lens, n - 1, s, t);
    }
  }

  /** Where a symbol sits in the list sorted by code. */
  function Position(lens: Lengths, i: nat): nat
    requires i < |lens|
  {
    Below(lens, |lens|, lens[i]) + CountTo(lens, i, lens[i])
  }

  lemma PositionBound(lens: Lengths, i: nat)
    requires i < |lens| && lens[i] > 0
    ensures Position(lens, i) < Below(lens, |lens|, lens[i] + 1) <= |lens|
  {
    BelowNext(lens, |lens|, lens[i]);
    CountGrows(lens, i + 1, |lens|, lens[i]);
  }

  lemma PositionDistinct(lens: Lengths, i: nat, j: nat)
    requires i < j < |lens| && lens[i] > 0 && lens[j] > 0
    ensures Position(lens, i) != Position(lens, j)
  {
    PositionBound(lens, i);
    PositionBound(lens, j);
    if lens[i] < lens[j] {
      BelowGrows(lens, |lens|, lens[i] + 1, lens[j]);
    } else if lens[j] < lens[i] {
      BelowGrows(lens, |lens|, lens[j] + 1, lens[i]);
    } else {
      CountGrows(lens, i + 1, j, lens[i]);
    }
  }

  /** The cast to stbi__uint16. */
  function U16(x: nat): nat {
    x % 65536
  }

  // ----- the fast table

  /** The entry for a symbol: its length above its number. */
  function FastValue(lens: Lengths, i: nat): nat
    requires i < |lens|
  {
    512 * lens[i] + i
  }

  /** The next nine bits begin with the code of symbol i. */
  predicate FastHit(lens: Lengths, i: nat, j: nat)
    requires i < |lens|
  {
    lens[i] <= ZFAST_BITS && Begins(lens, i, ToBits(j, ZFAST_BITS))
  }

  /** The table holds the first n symbols with short codes, and nothing else. */
  ghost predicate FastHolds(fast: seq<nat>, lens: Lengths, n: nat)
    requires n <= |lens|
  {
    && |fast| == 512
    && (forall i, j :: 0 <= i < n && 0 <= j < 512 && FastHit(lens, i, j) ==> fast[j] == FastValue(lens, i))
    && (forall j :: 0 <= j < 512 && fast[j] != 0 ==> exists i :: 0 <= i < n && FastHit(lens, i, j))
  }

  /** Nine bits begin with a code exactly when their low part is the reversed code. */
  lemma FastHitIs(lens: Lengths, i: nat, j: nat)
    requires Accepted(lens) && i < |lens| && 0 < lens[i] <= ZFAST_BITS && j < 512
    ensures FastHit(lens, i, j) <==> Low(j, lens[i]) == BitReverse(CodeOf(lens, i), lens[i])
  {
    hide Pow2, ToBits, MsbBits, BitReverse, Low, High, CodeOf;
    var s, rev := lens[i], BitReverse(CodeOf(lens, i), lens[i]);
    ReverseBits(CodeOf(lens, i), s);
    SmallPowers();
    SplitBits(j, s, ZFAST_BITS - s);
    PrefixOfSum(CodeBits(lens, i), ToBits(Low(j, s), s), ToBits(High(j, s), ZFAST_BITS - s));
    FromToBits(Low(j, s), s);
    FromToBits(rev, s);
  }

  lemma PrefixOfSum(p: Bits, a: Bits, b: Bits)
    requires |p| == |a|
    ensures p <= a + b <==> p == a
  {
    assert (a + b)[..|a|] == a;
  }

  lemma FastNext(fast: seq<nat>, fast': seq<nat>, lens: Lengths, n: nat)
    requires Accepted(lens) && n < |lens| && FastHolds(fast, lens, n)
    requires |fast'| == 512
    requires forall j :: 0 <= j < 512 ==> fast'[j] == if FastHit(lens, n, j) then FastValue(lens, n) else fast[j]
    ensures FastHolds(fast', lens, n + 1)
  {
    hide FastHit, FastValue;
    forall i, j | 0 <= i < n + 1 && 0 <= j < 512 && FastHit(lens, i, j)
      ensures fast'[j] == FastValue(lens, i)
    {
      if FastHit(lens, n, j) {
        FastUnique(lens, i, n, j);
      }
    }
    forall j | 0 <= j < 512 && fast'[j] != 0
      ensures exists i :: 0 <= i < n + 1 && FastHit(lens, i, j)
    {
      if FastHit(lens, n, j) {
      } else {
        var i :| 0 <= i < n && FastHit(lens, i, j);
      }
    }
  }

  lemma FastUnique(lens: Lengths, i: nat, k: nat, j: nat)
    requires Accepted(lens) && i < |lens| && k < |lens| && FastHit(lens, i, j) && FastHit(lens, k, j)
    ensures i == k
  {
    hide Begins;
    BeginsUnique(lens, i, k, ToBits(j, ZFAST_BITS));
  }

  lemma StepsApart(j: nat, j': nat, s: nat)
    requires j < j' < j + Pow2(s)
    ensures Low(j', s) != Low(j, s)
    ensures Low(j + Pow2(s), s) == Low(j, s)
  {
    LowHigh(j, s);
    LowHigh(j', s);
    hide Low, High;
    var p, d := Pow2(s), High(j', s) - High(j, s);
    assert p * High(j', s) - p * High(j, s) == d * p;
    if Low(j', s) == Low(j, s) {
      SmallMultiple(d, p);
      assert false;
    }
    NextStep(j, s);
  }

  lemma NextStep(j: nat, s: nat)
    ensures Low(j + Pow2(s), s) == Low(j, s)
  {
    LowHigh(j, s);
    hide Low, High, Pow2;
    var p, h := Pow2(s), High(j, s);
    assert p * (h + 1) == p * h + p;
    LowHighUnique(j + p, s, Low(j, s), h + 1);
  }

  // ----- the ranges of codes

  /** The rows for lengths below s. */
  ghost predicate RangesHold(lens: Lengths, s: nat, firstcode: seq<nat>, maxcode: seq<nat>, firstsymbol: seq<nat>) {
    && 1 <= s <= 16 && |firstcode| == 16 && |maxcode| == 17 && |firstsymbol| == 16
    && (forall t :: 1 <= t < s ==> firstcode[t] == First(lens, t) && maxcode[t] == Max(lens, t)
                                   && firstsymbol[t] == Below(lens, |lens|, t))
  }

  ghost predicate AcceptedBelow(lens: Lengths, s: nat) {
    forall t :: 1 <= t < s && t < 16 && Count(lens, t) > 0 ==> End(lens, t) <= Pow2(t)
  }

  lemma FirstFits(lens: Lengths, s: nat)
    requires AcceptedBelow(lens, s) && 1 <= s < 16
    ensures First(lens, s) <= Pow2(s) <= 32768
  {
    SmallPowers();
    Pow2AtMost(s, 15);
    if s > 1 {
      FirstFits(lens, s - 1);
      Pow2Next(s - 1);
      hide Pow2, Count;
      if Count(lens, s - 1) == 0 {
        assert End(lens, s - 1) == First(lens, s - 1);
      }
    }
  }

  lemma AcceptedNext(lens: Lengths, s: nat)
    requires AcceptedBelow(lens, s) && 1 <= s < 16
    requires Count(lens, s) == 0 || End(lens, s) <= Pow2(s)
    ensures AcceptedBelow(lens, s + 1)
  {
  }

  /** A symbol's slot in the sorted list. */
  ghost predicate SymbolsHold(lens: Lengths, n: nat, size: seq<nat>, value: seq<nat>)
    requires n <= |lens|
  {
    && |size| == |value| == ZNSYMS
    && (forall i :: 0 <= i < n && lens[i] > 0 ==> Position(lens, i) < ZNSYMS && size[Position(lens, i)] == lens[i]
                                                  && value[Position(lens, i)] == i)
  }

  lemma SymbolsNext(lens: Lengths, n: nat, size: seq<nat>, value: seq<nat>)
    requires n < |lens| <= ZNSYMS && SymbolsHold(lens, n, size, value)
    ensures lens[n] == 0 ==> SymbolsHold(lens, n + 1, size, value)
    ensures lens[n] > 0 ==> Position(lens, n) < ZNSYMS
    ensures lens[n] > 0 ==>
              SymbolsHold(lens, n + 1, size[Position(lens, n) := lens[n]], value[Position(lens, n) := n])
  {
    hide Position;
    if lens[n] > 0 {
      PositionBound(lens, n);
      forall i | 0 <= i < n && lens[i] > 0
        ensures Position(lens, i) != Position(lens, n)
      {
        PositionDistinct(lens, i, n);
      }
    }
  }

  /** Where the next symbol of each length goes. */
  ghost predicate NextCodes(lens: Lengths, n: nat, nextCode: seq<nat>)
    requires n <= |lens|
  {
    |nextCode| == 16 && forall s :: 1 <= s < 16 ==> nextCode[s] == First(lens, s) + CountTo(lens, n, s)
  }

  lemma NextCodesStep(lens: Lengths, n: nat, nextCode: seq<nat>)
    requires n < |lens| && NextCodes(lens, n, nextCode)
    ensures |nextCode| == 16
    ensures lens[n] == 0 ==> NextCodes(lens, n + 1, nextCode)
    ensures lens[n] > 0 ==> nextCode[lens[n]] == CodeOf(lens, n)
    ensures lens[n] > 0 ==> NextCodes(lens, n + 1, nextCode[lens[n] := nextCode[lens[n]] + 1])
  {
    hide First;
  }

  lemma AcceptedAll(lens: Lengths)
    ensures AcceptedBelow(lens, 16) <==> Accepted(lens)
  {
  }

  lemma MaxIs(lens: Lengths, s: nat)
    requires s <= 16
    ensures Max(lens, s) == End(lens, s) * Pow2(16 - s)
  {
  }

  lemma NothingHolds(lens: Lengths, fast: seq<nat>, size: seq<nat>, value: seq<nat>)
    requires |fast| == 512 && |size| == |value| == ZNSYMS && forall j :: 0 <= j < 512 ==> fast[j] == 0
    ensures FastHolds(fast, lens, 0) && SymbolsHold(lens, 0, size, value)
  {
  }

  lemma NextIndex(lens: Lengths, n: nat, nextCode: seq<nat>, firstcode: seq<nat>, maxcode: seq<nat>,
                  firstsymbol: seq<nat>)
    requires n < |lens| && NextCodes(lens, n, nextCode)
    requires RangesHold(lens, 16, firstcode, maxcode, firstsymbol)
    ensures |nextCode| == |firstcode| == |firstsymbol| == 16
    ensures lens[n] > 0 ==> nextCode[lens[n]] >= firstcode[lens[n]]
    ensures lens[n] > 0 ==> nextCode[lens[n]] - firstcode[lens[n]] + firstsymbol[lens[n]] == Position(lens, n)
  {
  }

  lemma FastEntry(s: nat, i: nat)
    requires s < 16 && i < 512
    ensures U16(Or(s * 512, i)) == 512 * s + i
  {
    SmallPowers();
    hide Pow2, Or;
    OrDisjoint(i, s, 9);
    OrComm(i, s * 512);
  }

  /** A symbol without a short code leaves the table alone. */
  lemma FastSkipped(fast: seq<nat>, lens: Lengths, n: nat)
    requires n < |lens| && FastHolds(fast, lens, n) && (lens[n] == 0 || lens[n] > ZFAST_BITS)
    ensures FastHolds(fast, lens, n + 1)
  {
  }

  lemma LowOfSmall(v: nat, n: nat)
    requires v < Pow2(n)
    ensures Low(v, n) == v
  {
    SmallMod(v, Pow2(n));
  }

  lemma FastFilled(fast: seq<nat>, fast': seq<nat>, lens: Lengths, n: nat)
    requires Accepted(lens) && n < |lens| && 0 < lens[n] <= ZFAST_BITS && FastHolds(fast, lens, n)
    requires |fast| == |fast'| == 512
    requires forall i :: 0 <= i < 512 ==>
               fast'[i] == if Low(i, lens[n]) == BitReverse(CodeOf(lens, n), lens[n]) then FastValue(lens, n)
                           else fast[i]
    ensures FastHolds(fast', lens, n + 1)
  {
    hide BitReverse, CodeOf, FastHolds, FastValue, FastHit, Accepted, Low;
    forall i | 0 <= i < 512
      ensures fast'[i] == if FastHit(lens, n, i) then FastValue(lens, n) else fast[i]
    {
      FastHitIs(lens, n, i);
    }
    FastNext(fast, fast', lens, n);
  }

  lemma RangesNext(lens: Lengths, s: nat, firstcode: seq<nat>, maxcode: seq<nat>, firstsymbol: seq<nat>)
    requires s < 16 && RangesHold(lens, s, firstcode, maxcode, firstsymbol)
    ensures RangesHold(lens, s + 1, firstcode[s := First(lens, s)], maxcode[s := Max(lens, s)],
                       firstsymbol[s := Below(lens, |lens|, s)])
  {
    hide First, Max, Below;
  }

  lemma RangesTop(lens: Lengths, x: nat, firstcode: seq<nat>, maxcode: seq<nat>, firstsymbol: seq<nat>)
    requires RangesHold(lens, 16, firstcode, maxcode, firstsymbol)
    ensures RangesHold(lens, 16, firstcode, maxcode[16 := x], firstsymbol)
  {
    hide First, Max, Below;
  }

  lemma RangesStart(lens: Lengths, firstcode: seq<nat>, maxcode: seq<nat>, firstsymbol: seq<nat>)
    requires |firstcode| == 16 && |maxcode| == 17 && |firstsymbol| == 16
    ensures RangesHold(lens, 1, firstcode, maxcode, firstsymbol) && AcceptedBelow(lens, 1) && First(lens, 1) == 0
  {
  }

  lemma NextCodesStart(lens: Lengths, nextCode: seq<nat>)
    requires |nextCode| == 16 && forall t :: 1 <= t < 16 ==> nextCode[t] == First(lens, t)
    ensures NextCodes(lens, 0, nextCode)
  {
    hide First;
  }

  lemma SmallU16(x: nat)
    requires x < 65536
    ensures U16(x) == x
  {
  }

  lemma Rejected(lens: Lengths, s: nat)
    requires 1 <= s < 16 && Count(lens, s) > 0 && End(lens, s) > Pow2(s)
    ensures !AcceptedBelow(lens, 16)
  {
  }

  lemma EndIs(lens: Lengths, s: nat)
    ensures End(lens, s) == First(lens, s) + Count(lens, s)
    ensures s >= 1 ==> First(lens, s + 1) == 2 * End(lens, s)
  {
  }

  /** Lines 128 to 132. */
  method CountSizes(sizelist: Lengths) returns (sizes: seq<nat>)
    ensures |sizes| == 17 && forall s :: 1 <= s < 16 ==> sizes[s] == Count(sizelist, s)
  {
    sizes := seq(17, _ => 0);
    var i := 0;
    while i < |sizelist|
      invariant i <= |sizelist| && |sizes| == 17
      invariant forall s :: 0 <= s < 16 ==> sizes[s] == CountTo(sizelist, i, s)
    {
      sizes := sizes[sizelist[i] := sizes[sizelist[i]] + 1];
      i := i + 1;
    }
    sizes := sizes[0 := 0];
  }

  class ZHuffman {
    var fast: seq<nat>
    var firstcode: seq<nat>
    var maxcode: seq<nat>
    var firstsymbol: seq<nat>
    var size: seq<nat>
    var value: seq<nat>

    /** The sizes of the arrays; their contents are whatever the memory held. */
    ghost predicate Valid()
      reads this
    {
      && |fast| == 512 && |firstcode| == 16 && |maxcode| == 17 && |firstsymbol| == 16
      && |size| == |value| == ZNSYMS
    }

    /** The tables describe the canonical code. */
    ghost predicate Tables(lens: Lengths)
      reads this
    {
      && Valid() && Accepted(lens) && |lens| <= ZNSYMS
      && RangesHold(lens, 16, firstcode, maxcode, firstsymbol) && maxcode[16] == 0x10000
      && SymbolsHold(lens, |lens|, size, value)
      && FastHolds(fast, lens, |lens|)
    }

    constructor ()
      ensures Valid()
    {
      fast, firstcode, maxcode := seq(512, _ => 0), seq(16, _ => 0), seq(17, _ => 0);
      firstsymbol, size, value := seq(16, _ => 0), seq(ZNSYMS, _ => 0), seq(ZNSYMS, _ => 0);
    }

    /** Lines 136 to 147. */
    method BuildRanges(sizelist: Lengths, sizes: seq<nat>) returns (ok: bool, nextCode: seq<nat>)
      requires Valid() && |sizelist| <= ZNSYMS
      requires |sizes| == 17 && forall s :: 1 <= s < 16 ==> sizes[s] == Count(sizelist, s)
      modifies this`firstcode, this`maxcode, this`firstsymbol
      ensures Valid()
      ensures ok <==> AcceptedBelow(sizelist, 16)
      ensures ok ==> RangesHold(sizelist, 16, firstcode, maxcode, firstsymbol) && NextCodes(sizelist, 0, nextCode)
    {
      hide Pow2, CountTo, Below, Max, First, End, AcceptedBelow, RangesHold, NextCodes, U16;
      nextCode := seq(16, _ => 0);
      var code, k := 0, 0;
      BelowNext(sizelist, |sizelist|, 1);
      RangesStart(sizelist, firstcode, maxcode, firstsymbol);
      var i := 1;
      while i < 16
        invariant 1 <= i <= 16 && Valid() && |nextCode| == 16
        invariant AcceptedBelow(sizelist, i) && RangesHold(sizelist, i, firstcode, maxcode, firstsymbol)
        invariant code == First(sizelist, i) && k == Below(sizelist, |sizelist|, i)
        invariant forall t :: 1 <= t < i ==> nextCode[t] == First(sizelist, t)
      {
        FirstFits(sizelist, i);
        RangesNext(sizelist, i, firstcode, maxcode, firstsymbol);
        EndIs(sizelist, i);
        MaxIs(sizelist, i);
        BelowNext(sizelist, |sizelist|, i);
        SmallU16(code);
        SmallU16(k);
        nextCode := nextCode[i := code];
        firstcode := firstcode[i := U16(code)];
        firstsymbol := firstsymbol[i := U16(k)];
        code := code + sizes[i];
        if sizes[i] > 0 {
          if code - 1 >= Pow2(i) {
            Rejected(sizelist, i);
            return false, nextCode;
          }
        }
        AcceptedNext(sizelist, i);
        maxcode := maxcode[i := code * Pow2(16 - i)];
        code := code * 2;
        k := k + sizes[i];
        i := i + 1;
      }
      ok := true;
      NextCodesStart(sizelist, nextCode);
    }

    /** Lines 149 to 165. */
    method BuildSymbols(sizelist: Lengths, next: seq<nat>)
      requires Valid() && |sizelist| <= ZNSYMS && Accepted(sizelist)
      requires RangesHold(sizelist, 16, firstcode, maxcode, firstsymbol) && NextCodes(sizelist, 0, next)
      requires forall j :: 0 <= j < 512 ==> fast[j] == 0
      modifies this`fast, this`size, this`value
      ensures Valid() && SymbolsHold(sizelist, |sizelist|, size, value) && FastHolds(fast, sizelist, |sizelist|)
    {
      hide SymbolsHold, FastHolds, NextCodes, Position, CodeOf, Pow2, First, Below, CountTo, Accepted;
      var nextCode := next;
      NothingHolds(sizelist, fast, size, value);
      var i := 0;
      while i < |sizelist|
        modifies this`fast, this`size, this`value
        invariant i <= |sizelist| && Valid()
        invariant NextCodes(sizelist, i, nextCode) && SymbolsHold(sizelist, i, size, value)
        invariant FastHolds(fast, sizelist, i)
      {
        var s := sizelist[i];
        SymbolsNext(sizelist, i, size, value);
        NextCodesStep(sizelist, i, nextCode);
        NextIndex(sizelist, i, nextCode, firstcode, maxcode, firstsymbol);
        if s > 0 {
          var c := nextCode[s] - firstcode[s] + firstsymbol[s];
          var fastv := U16(Or(s * 512, i));
          size := size[c := s];
          value := value[c := i];
          FastEntry(s, i);
          if s <= ZFAST_BITS {
            FillFast(sizelist, i, BitReverse(nextCode[s], s), s, fastv);
          } else {
            FastSkipped(fast, sizelist, i);
          }
          nextCode := nextCode[s := nextCode[s] + 1];
        } else {
          FastSkipped(fast, sizelist, i);
        }
        i := i + 1;
      }
    }

    /** Lines 157 to 161: every nine-bit pattern that starts with the reversed code. */
    method FillFast(ghost lens: Lengths, ghost n: nat, rev: nat, s: nat, fastv: nat)
      requires |fast| == 512 && n < |lens| && lens[n] == s && 0 < s <= ZFAST_BITS && Accepted(lens)
      requires rev == BitReverse(CodeOf(lens, n), s) && fastv == FastValue(lens, n)
      requires FastHolds(fast, lens, n)
      modifies this`fast
      ensures |fast| == 512 && FastHolds(fast, lens, n + 1)
    {
      hide Pow2, BitReverse, CodeOf, FastHolds, FastValue, FastHit, Accepted, Low;
      ghost var was := fast;
      ReverseBits(CodeOf(lens, n), s);
      Pow2Positive(s);
      LowOfSmall(rev, s);
      forall i | 0 <= i < rev
        ensures Low(i, s) != rev
      {
        LowOfSmall(i, s);
      }
      var j := rev;
      while j < 512
        modifies this`fast
        invariant |fast| == 512 && Low(j, s) == rev
        invariant forall i :: 0 <= i < 512 ==> fast[i] == if i < j && Low(i, s) == rev then fastv else was[i]
        decreases 512 - j
      {
        fast := fast[j := fastv];
        forall i | j < i < j + Pow2(s) && i < 512
          ensures Low(i, s) != rev
        {
          StepsApart(j, i, s);
        }
        NextStep(j, s);
        j := j + Pow2(s);
      }
      FastFilled(was, fast, lens, n);
    }

    /** stbi__zbuild_huffman: rejects exactly the lengths whose codes run out. */
    method Build(sizelist: Lengths) returns (ok: bool)
      requires Valid() && |sizelist| <= ZNSYMS
      modifies this
      ensures Valid() && (ok <==> Accepted(sizelist)) && (ok ==> Tables(sizelist))
    {
      hide Count, CountTo, RangesHold, SymbolsHold, FastHolds, NextCodes, AcceptedBelow;
      var sizes := CountSizes(sizelist);
      fast := seq(512, _ => 0);
      var i := 1;
      while i < 16
        invariant 1 <= i <= 16
      {
        if sizes[i] > Pow2(i) {
          assert Count(sizelist, i) > 0 && End(sizelist, i) > Pow2(i);
          return false;
        }
        i := i + 1;
      }
      var nextCode;
      ok, nextCode := BuildRanges(sizelist, sizes);
      AcceptedAll(sizelist);
      if !ok {
        return;
      }
      RangesTop(sizelist, 0x10000, firstcode, maxcode, firstsymbol);
      maxcode := maxcode[16 := 0x10000];
      BuildSymbols(sizelist, nextCode);
    }
  }
}
