// Bit input and symbol decoding of the inflater (stb/stb_image.h:4175-4257).
module InflateBits {
  import opened Sequences
  import opened BitOps
  import opened BitStream
  import opened Options
  import opened BitOutput
  import opened CanonicalCode
  import opened BitReversal
  import opened HuffmanTables
  import opened InflateInput

  const UINT_MAX: nat := 0xFFFF_FFFF

  /** How far an output buffer of this size can be doubled. */
  function Grown(capacity: nat): (g: nat)
    requires 0 < capacity <= UINT_MAX
    ensures capacity <= g <= UINT_MAX && g > UINT_MAX / 2
    decreases UINT_MAX - capacity
  {
    if capacity > UINT_MAX / 2 then capacity else Grown(2 * capacity)
  }

  /** The most bytes that an output buffer can take, now or after growing. */
  function OutputLimit(capacity: nat, expandable: bool): (limit: nat)
    requires capacity <= UINT_MAX && (expandable ==> capacity > 0)
    ensures capacity <= limit <= UINT_MAX && (if expandable then limit > UINT_MAX / 2 else limit == capacity)
  {
    if expandable then Grown(capacity) else capacity
  }

  /** Taking n bits off the low end of a buffer. */
  lemma TakeLow(v: nat, count: nat, n: nat, rest: Bits)
    requires n <= count && v < Pow2(count)
    ensures (ToBits(v, count) + rest)[..n] == ToBits(Low(v, n), n)
    ensures (ToBits(v, count) + rest)[n..] == ToBits(High(v, n), count - n) + rest
    ensures High(v, n) < Pow2(count - n)
    ensures FromBits(ToBits(Low(v, n), n)) == Low(v, n)
  {
    hide ToBits, FromBits, Pow2, Low, High;
    SplitBits(v, n, count - n);
    FromToBits(Low(v, n), n);
    Reassociate(ToBits(Low(v, n), n), ToBits(High(v, n), count - n), rest);
  }

  /** The same for what the buffer holds. */
  lemma TakeHeld(v: nat, count: nat, n: nat)
    requires n <= count && v < Pow2(count)
    ensures FromBits(ToBits(v, count)[..n]) == Low(v, n)
    ensures ToBits(v, count)[n..] == ToBits(High(v, n), count - n) && High(v, n) < Pow2(count - n)
  {
    hide ToBits, FromBits, Pow2, Low, High;
    TakeLow(v, count, n, []);
    assert ToBits(v, count) + [] == ToBits(v, count);
    assert ToBits(High(v, n), count - n) + [] == ToBits(High(v, n), count - n);
  }

  /** A byte is put on top of the buffer. */
  lemma LoadByte(v: nat, count: nat, x: Byte)
    requires v < Pow2(count)
    ensures Or(v, x * Pow2(count)) < Pow2(count + 8)
    ensures ToBits(Or(v, x * Pow2(count)), count + 8) == ToBits(v, count) + ToBits(x, 8)
  {
    hide ToBits, Pow2, Or;
    SmallPowers();
    OrDisjoint(v, x, count);
    AppendCode(v, count, x, 8);
  }

  lemma {:induction false} ZeroBits(n: nat)
    ensures ToBits(0, n) == Zeros(n)
  {
    if n > 0 {
      ZeroBits(n - 1);
      assert ToBits(0, n) == [false] + Zeros(n - 1);
    }
  }

  class ZBuf {
    const zbuffer: seq<Byte>
    var pos: nat
    var numBits: nat
    var codeBuffer: nat
    var zout: seq<Byte>
    const expandable: bool
    var capacity: nat
    const zLength: ZHuffman
    const zDistance: ZHuffman

    ghost predicate Valid()
      reads this
    {
      && pos <= |zbuffer| && numBits <= 32 && codeBuffer < Pow2(numBits)
      && capacity <= UINT_MAX && (expandable ==> capacity > 0) && |zout| <= capacity
    }

    /** Everything still to be read. */
    ghost function View(): (i: Input)
      requires Valid()
      reads this
      ensures |i.held| == numBits && |i.ahead| == |zbuffer| - pos
    {
      Input(ToBits(codeBuffer, numBits), zbuffer[pos..])
    }

    /** The most bytes that the output buffer can take. */
    ghost function Limit(): (limit: nat)
      requires Valid()
      reads this
      ensures |zout| <= capacity <= limit && (!expandable ==> limit == capacity)
    {
      OutputLimit(capacity, expandable)
    }

    constructor (data: seq<Byte>, size: nat, canExpand: bool)
      requires size <= UINT_MAX && (canExpand ==> size > 0)
      ensures Valid() && View() == Input([], data) && zbuffer == data && zout == [] && pos == 0
      ensures capacity == size && expandable == canExpand
      ensures fresh(zLength) && fresh(zDistance) && zLength != zDistance && zLength.Valid() && zDistance.Valid()
    {
      zbuffer, pos, numBits, codeBuffer, zout := data, 0, 0, 0, [];
      capacity, expandable := size, canExpand;
      zLength := new ZHuffman();
      zDistance := new ZHuffman();
      new;
      assert zbuffer[0..] == zbuffer && ToBits(0, 0) == [];
    }

    /** stbi__zeof. */
    predicate Zeof()
      reads this
    {
      pos >= |zbuffer|
    }

    /** stbi__zget8: zero past the end of the input. */
    method Zget8() returns (b: Byte)
      requires Valid()
      modifies this`pos
      ensures Valid()
      ensures old(pos) < |zbuffer| ==> b == zbuffer[old(pos)] && pos == old(pos) + 1
      ensures old(pos) == |zbuffer| ==> b == 0 && pos == old(pos)
    {
      if Zeof() {
        return 0;
      }
      b := zbuffer[pos];
      pos := pos + 1;
    }

    /** What loading a byte does, or past the end a zero. */
    lemma LoadsByte(b: Byte)
      requires Valid() && numBits <= 24 && b == if pos < |zbuffer| then zbuffer[pos] else 0
      ensures Or(codeBuffer, b * Pow2(numBits)) < Pow2(numBits + 8)
      ensures Load(View()) ==
              Input(ToBits(Or(codeBuffer, b * Pow2(numBits)), numBits + 8),
                    zbuffer[if pos < |zbuffer| then pos + 1 else pos..])
    {
      hide ToBits, Pow2, Or;
      LoadByte(codeBuffer, numBits, b);
      if pos < |zbuffer| {
        assert zbuffer[pos..][1..] == zbuffer[pos + 1..];
      } else {
        ZeroBits(8);
      }
    }

    /** stbi__fill_bits. The consistency check that treats the buffer as ended never fires. */
    method FillBits()
      requires Valid() && numBits <= 24
      modifies this`pos, this`numBits, this`codeBuffer
      ensures Valid() && View() == Fill(old(View()))
    {
      hide Pow2, ToBits, Or, Load;
      var more := true;
      while more
        invariant Valid() && more == (numBits <= 24) && Fill(View()) == Fill(old(View()))
        decreases 33 - numBits, more
      {
        if codeBuffer >= Pow2(numBits) {
          assert false;
        }
        LoadsByte(if pos < |zbuffer| then zbuffer[pos] else 0);
        var b := Zget8();
        codeBuffer := Or(codeBuffer, b * Pow2(numBits));
        numBits := numBits + 8;
        more := numBits <= 24;
      }
    }

    /**
     * stbi__zexpand: doubles the output buffer until n more bytes fit. It fails exactly for a buffer that is fixed and
     * for one that cannot be doubled often enough, and then leaves it; memory itself never runs out here.
     */
    method Zexpand(cur: nat, n: nat) returns (ok: bool)
      requires Valid() && cur <= capacity
      modifies this`capacity
      ensures Valid() && Limit() == old(Limit())
      ensures ok <==> expandable && cur + n <= Limit()
      ensures if ok then capacity >= old(capacity) && capacity >= cur + n else capacity == old(capacity)
    {
      if !expandable {
        return false;
      }
      var limit := capacity;
      if UINT_MAX - cur < n {
        return false;
      }
      while cur + n > limit
        invariant capacity <= limit <= UINT_MAX && Grown(limit) == Grown(capacity)
        decreases cur + n - limit
      {
        if limit > UINT_MAX / 2 {
          return false;
        }
        limit := limit * 2;
      }
      capacity := limit;
      ok := true;
    }

    /** stbi__zreceive: the next n bits as a number, the least significant one first. */
    method Zreceive(n: nat) returns (k: nat)
      requires Valid() && n <= 16
      modifies this`pos, this`numBits, this`codeBuffer
      ensures Valid() && Receive(n, old(View())) == (k, View())
    {
      hide Pow2, ToBits, FromBits, Low, High, Fill;
      if numBits < n {
        FillBits();
      }
      TakeHeld(codeBuffer, numBits, n);
      k := Low(codeBuffer, n);
      codeBuffer := High(codeBuffer, n);
      numBits := numBits - n;
    }

    /** Lines 4235 and 4252: the code of the symbol leaves the buffer. */
    method Consume(s: nat)
      requires Valid() && s <= numBits
      modifies this`numBits, this`codeBuffer
      ensures Valid() && View() == Drop(s, old(View()))
    {
      hide Pow2, ToBits, Low, High;
      TakeHeld(codeBuffer, numBits, s);
      codeBuffer := High(codeBuffer, s);
      numBits := numBits - s;
    }

    /** stbi__zhuffman_decode_slowpath, for codes of more than nine bits. */
    method DecodeSlowpath(z: ZHuffman, ghost lens: Lengths) returns (r: int)
      requires Valid() && numBits >= 16 && z.Tables(lens)
      requires forall i :: 0 <= i < |lens| ==> !FastHit(lens, i, Low(codeBuffer, ZFAST_BITS))
      modifies this`numBits, this`codeBuffer
      ensures Valid() && Decoded(lens, old(View()), r, View())
    {
      hide Pow2, ToBits, BytesBits, MsbBits, BitReverse, Low, High, FastHit, Max, Matches, First, CountTo, Symbol;
      ghost var bits := AllBits(View());
      var k := BitReverse(codeBuffer, 16);
      WindowOf(codeBuffer, numBits, BytesBits(zbuffer[pos..]));
      NoShortMatch(lens, codeBuffer, numBits, BytesBits(zbuffer[pos..]), k);
      SmallPowers();
      var s := ZFAST_BITS + 1;
      while k >= z.maxcode[s]
        invariant 10 <= s <= 16
        invariant Max(lens, s - 1) <= k
        decreases 16 - s
      {
        s := s + 1;
      }
      if s >= 16 {
        NothingBegins(lens, bits, k);
        return -1;
      }
      ghost var i := MatchExists(lens, s, k);
      MatchesIsBegins(lens, i, bits, k);
      SymbolIs(lens, i, bits);
      var b: int := High(k, 16 - s) - z.firstcode[s] + z.firstsymbol[s];
      assert b == Position(lens, i);
      if b >= ZNSYMS || z.size[b] != s {
        assert false;
      }
      Consume(s);
      r := z.value[b];
    }

    /** stbi__zhuffman_decode: the symbol whose code comes next, or -1 if there is none or the data have ended. */
    method Decode(z: ZHuffman, ghost lens: Lengths) returns (r: int)
      requires Valid() && z.Tables(lens)
      modifies this`pos, this`numBits, this`codeBuffer
      ensures Valid()
      ensures match NextSymbol(lens, old(View()))
              case Ok(i, rest) => r == i && View() == rest
              case Err => r == -1
    {
      hide Pow2, ToBits, Low, High, FastHit, Symbol, FastHolds, SymbolsHold, RangesHold, Accepted, Fill;
      if numBits < 16 {
        if Zeof() {
          return -1;
        }
        FillBits();
      }
      SmallPowers();
      LowSmall(codeBuffer);
      var b := z.fast[Low(codeBuffer, ZFAST_BITS)];
      if b != 0 {
        ghost var i := FastStep(z.fast, lens, codeBuffer, numBits, BytesBits(zbuffer[pos..]));
        Consume(b / 512);
        return b % 512;
      }
      NoHit(z.fast, lens, Low(codeBuffer, ZFAST_BITS));
      r := DecodeSlowpath(z, lens);
    }
  }

  /** What a decoder with at least sixteen bits returns and leaves behind. */
  ghost predicate Decoded(lens: Lengths, i: Input, r: int, rest: Input)
    requires |i.held| >= 16
  {
    match Symbol(lens, AllBits(i))
    case Some(k) => r == k && rest == Drop(lens[k], i)
    case None => r == -1
  }
  lemma LowSmall(v: nat)
    ensures Low(v, 9) < 512
  {
    SmallPowers();
    hide Pow2, Low;
  }

  lemma ToBitsLow(v: nat, n: nat)
    ensures ToBits(v, n) == ToBits(Low(v, n), n)
  {
    hide ToBits, Low, BitSet;
    forall i | 0 <= i < n
      ensures ToBits(v, n)[i] == ToBits(Low(v, n), n)[i]
    {
      ToBitsAt(v, n, i);
      ToBitsAt(Low(v, n), n, i);
      BitOfLow(v, n, i);
    }
  }

  /** The reversed buffer is the next sixteen bits as a number. */
  lemma WindowOf(v: nat, count: nat, rest: Bits)
    requires v < Pow2(count) && count >= 16
    ensures var bits := ToBits(v, count) + rest;
      |bits| >= 16 && bits[..16] == MsbBits(BitReverse(v, 16), 16) && BitReverse(v, 16) < Pow2(16)
  {
    hide ToBits, Low, High, MsbBits, BitReverse, Pow2;
    TakeLow(v, count, 16, rest);
    ToBitsLow(v, 16);
    ReverseBits(v, 16);
  }

  lemma HitSymbol(fast: seq<nat>, lens: Lengths, j: nat) returns (i: nat)
    requires FastHolds(fast, lens, |lens|) && j < 512 && fast[j] != 0 && |lens| <= ZNSYMS
    ensures i < |lens| && FastHit(lens, i, j) && fast[j] / 512 == lens[i] && fast[j] % 512 == i
  {
    hide FastHit;
    i :| 0 <= i < |lens| && FastHit(lens, i, j);
  }

  lemma FastStep(fast: seq<nat>, lens: Lengths, v: nat, count: nat, rest: Bits) returns (i: nat)
    requires Accepted(lens) && FastHolds(fast, lens, |lens|) && |lens| <= ZNSYMS
    requires v < Pow2(count) && count >= 16 && Low(v, ZFAST_BITS) < 512 && fast[Low(v, ZFAST_BITS)] != 0
    ensures i < |lens| && Symbol(lens, ToBits(v, count) + rest) == Some(i)
    ensures fast[Low(v, ZFAST_BITS)] / 512 == lens[i] <= 9 && fast[Low(v, ZFAST_BITS)] % 512 == i
  {
    hide Pow2, ToBits, Low, FastHit, Symbol, Accepted;
    i := HitSymbol(fast, lens, Low(v, ZFAST_BITS));
    HitBegins(lens, i, v, count, rest);
    SymbolIs(lens, i, ToBits(v, count) + rest);
  }

  lemma HitEntry(fast: seq<nat>, lens: Lengths, i: nat, j: nat)
    requires FastHolds(fast, lens, |lens|) && i < |lens| && j < 512 && FastHit(lens, i, j)
    ensures fast[j] > 0
  {
  }

  lemma NoHit(fast: seq<nat>, lens: Lengths, j: nat)
    requires FastHolds(fast, lens, |lens|) && j < 512 && fast[j] == 0
    ensures forall i :: 0 <= i < |lens| ==> !FastHit(lens, i, j)
  {
    forall i | 0 <= i < |lens|
      ensures !FastHit(lens, i, j)
    {
      if FastHit(lens, i, j) {
        HitEntry(fast, lens, i, j);
        assert false;
      }
    }
  }

  /** A hit in the fast table is a code at the front of the stream. */
  lemma HitBegins(lens: Lengths, i: nat, v: nat, count: nat, rest: Bits)
    requires i < |lens| && v < Pow2(count) && count >= 16
    ensures FastHit(lens, i, Low(v, ZFAST_BITS)) <==>
            lens[i] <= ZFAST_BITS && Begins(lens, i, ToBits(v, count) + rest)
  {
    hide ToBits, Low, High, Pow2, CodeBits;
    var bits := ToBits(v, count) + rest;
    TakeLow(v, count, ZFAST_BITS, rest);
    var next := ToBits(Low(v, ZFAST_BITS), ZFAST_BITS);
    assert bits[..9] == next;
    if lens[i] <= ZFAST_BITS {
      CodeLength(lens, i);
      PrefixOfPrefix(CodeBits(lens, i), bits, 9);
    }
  }

  lemma CodeLength(lens: Lengths, i: nat)
    requires i < |lens|
    ensures |CodeBits(lens, i)| == lens[i]
  {
  }

  lemma PrefixOfPrefix(p: Bits, bits: Bits, n: nat)
    requires |p| <= n <= |bits|
    ensures p <= bits <==> p <= bits[..n]
  {
    assert bits[..n][..|p|] == bits[..|p|];
  }

  /** When the fast table has no entry, the window lies past all short codes. */
  lemma NoShortMatch(lens: Lengths, v: nat, count: nat, rest: Bits, window: nat)
    requires Accepted(lens) && v < Pow2(count) && count >= 16 && window < Pow2(16)
    requires (ToBits(v, count) + rest)[..16] == MsbBits(window, 16)
    requires forall i :: 0 <= i < |lens| ==> !FastHit(lens, i, Low(v, ZFAST_BITS))
    ensures Max(lens, ZFAST_BITS) <= window
  {
    hide ToBits, Low, High, Pow2, FastHit, Max, Matches, MsbBits;
    if window < Max(lens, ZFAST_BITS) {
      var i := ShortMatch(lens, ZFAST_BITS, window);
      MatchesIsBegins(lens, i, ToBits(v, count) + rest, window);
      HitBegins(lens, i, v, count, rest);
      assert false;
    }
  }

  /** A window below Max(s) begins with a code of at most s bits. */
  lemma {:induction false} ShortMatch(lens: Lengths, s: nat, window: nat) returns (i: nat)
    requires Accepted(lens) && 1 <= s < 16 && window < Max(lens, s)
    ensures i < |lens| && lens[i] <= s && Matches(lens, i, window)
    decreases s
  {
    hide Max, Matches;
    if s > 1 && window < Max(lens, s - 1) {
      i := ShortMatch(lens, s - 1, window);
    } else {
      i := MatchExists(lens, s, window);
    }
  }

  lemma NothingBegins(lens: Lengths, bits: Bits, window: nat)
    requires Accepted(lens) && window < Pow2(16) && window >= Max(lens, 15)
    requires |bits| >= 16 && bits[..16] == MsbBits(window, 16)
    ensures Symbol(lens, bits).None?
  {
    hide Max, Matches, Begins, MsbBits, Pow2;
    if Symbol(lens, bits).Some? {
      var i := Symbol(lens, bits).value;
      MatchesIsBegins(lens, i, bits, window);
      NoMatch(lens, i, window);
      assert false;
    }
  }
}
