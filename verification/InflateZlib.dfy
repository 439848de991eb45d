// Stored blocks, dynamic codes and the zlib wrapper of the inflater (stb/stb_image.h:4338-4496).
module InflateZlib {
  import opened BitOps
  import opened BitStream
  import opened BitOutput
  import opened CanonicalCode
  import opened BitReversal
  import opened HuffmanTables
  import opened DeflateFormat
  import opened InflateSpec
  import opened InflateStreamSpec
  import opened InflateInput
  import opened InflateExact
  import opened InflateAgrees
  import opened InflateBits
  import opened Inflate

  // ----- stored blocks

  lemma {:induction false} XorOnes(x: nat, n: nat)
    requires x < Pow2(n)
    ensures Xor(x, Pow2(n) - 1) == Pow2(n) - 1 - x
  {
    hide Xor;
    if n > 0 {
      XorOnes(x / 2, n - 1);
      var p := Pow2(n - 1);
      assert Pow2(n) == 2 * p;
      hide Pow2;
      assert (2 * p - 1) / 2 == p - 1 && (2 * p - 1) % 2 == 1;
      XorDigits(x, 2 * p - 1);
    } else {
      XorZero(0);
    }
  }

  /** The header so far, and the bytes ahead of it: bytes are taken in order, then zeros are made up. */
  predicate HeaderSoFar(s: seq<Byte>, header: seq<Byte>, ahead: seq<Byte>) {
    if |header| <= |s| then header == s[..|header|] && ahead == s[|header|..]
    else header == s + seq(|header| - |s|, _ => 0) && ahead == []
  }

  lemma HeaderMore(s: seq<Byte>, header: seq<Byte>, ahead: seq<Byte>)
    requires HeaderSoFar(s, header, ahead)
    ensures if |ahead| > 0 then HeaderSoFar(s, header + [ahead[0]], ahead[1..]) else HeaderSoFar(s, header + [0], ahead)
  {
    if |header| >= |s| {
      assert seq(|header| - |s|, _ => 0) + [0] == seq(|header| + 1 - |s|, _ => 0);
    }
  }

  lemma HeaderDone(s: seq<Byte>, header: seq<Byte>, ahead: seq<Byte>)
    requires |header| == 4 && HeaderSoFar(s, header, ahead)
    ensures header == Header(s) && ahead == AfterHeader(s)
  {
  }

  /** Lines 4395 to 4400: the whole bytes in the buffer. */
  method DrainBuffer(a: ZBuf) returns (header: seq<Byte>)
    requires a.Valid() && a.numBits % 8 == 0 && a.numBits <= 24
    modifies a`numBits, a`codeBuffer
    ensures a.Valid() && a.numBits == 0 && header == BytesOf(old(a.View()).held)
  {
    hide ToBits, Pow2, High, LowByte, BytesOf;
    header := [];
    while a.numBits > 0
      invariant a.Valid() && a.numBits % 8 == 0
      invariant header + BytesOf(a.View().held) == BytesOf(old(a.View()).held)
      decreases a.numBits
    {
      FirstByteOf(a.codeBuffer, a.numBits);
      header := header + [LowByte(a.codeBuffer)];
      a.codeBuffer := High(a.codeBuffer, 8);
      a.numBits := a.numBits - 8;
    }
    NoBytes(a.View().held);
  }

  lemma NoBytes(b: Bits)
    requires |b| == 0
    ensures BytesOf(b) == []
  {
  }

  lemma FirstByteOf(v: nat, n: nat)
    requires n >= 8 && v < Pow2(n)
    ensures BytesOf(ToBits(v, n)) == [LowByte(v)] + BytesOf(ToBits(High(v, 8), n - 8))
    ensures High(v, 8) < Pow2(n - 8)
  {
    hide ToBits, FromBits, Pow2, High, Low;
    TakeHeld(v, n, 8);
    LowByteIs(v);
  }

  /** Lines 4390 to 4404: drop the rest of the byte, then collect four bytes from the buffer and the input. */
  method ReadHeader(a: ZBuf) returns (header: seq<Byte>)
    requires a.Valid() && a.numBits <= 30
    modifies a`pos, a`numBits, a`codeBuffer
    ensures a.Valid() && a.numBits == 0 && |header| == 4
    ensures header == Header(AlignedBytes(old(a.View()))) && a.View().ahead == AfterHeader(AlignedBytes(old(a.View())))
  {
    hide ToBits, FromBits, Pow2, BytesOf, Header, AfterHeader, HeaderSoFar;
    ghost var s := AlignedBytes(a.View());
    if a.numBits % 8 > 0 {
      var _ := a.Zreceive(a.numBits % 8);
    }
    header := DrainBuffer(a);
    HeaderStart(header, a.View().ahead);
    while |header| < 4
      invariant a.Valid() && |header| <= 4 && a.numBits == 0 && HeaderSoFar(s, header, a.View().ahead)
    {
      HeaderMore(s, header, a.View().ahead);
      var b := a.Zget8();
      header := header + [b];
    }
    HeaderDone(s, header, a.View().ahead);
  }

  lemma HeaderStart(header: seq<Byte>, ahead: seq<Byte>)
    ensures HeaderSoFar(header + ahead, header, ahead)
  {
  }

  lemma NoBits(v: nat)
    ensures ToBits(v, 0) == []
  {
  }

  /** stbi__parse_uncompressed_block. */
  method ParseUncompressedBlock(a: ZBuf) returns (ok: bool)
    requires a.Valid() && a.numBits <= 30
    modifies a`pos, a`numBits, a`codeBuffer, a`zout, a`capacity
    ensures a.Valid() && a.Limit() == old(a.Limit())
    ensures Parsed(ExactStored(old(a.View()), old(a.zout), old(a.Limit())), ok, a.zout, a.View())
  {
    hide ToBits, Xor, Pow2, AlignedBytes, Header, AfterHeader, OutputLimit;
    var header := ReadHeader(a);
    var len := Word(header[0], header[1]);
    var nlen := Word(header[2], header[3]);
    SmallPowers();
    XorOnes(len, 16);
    NoBits(a.codeBuffer);
    if nlen != Xor(len, 0xFFFF) {
      return false;
    }
    if a.pos + len > |a.zbuffer| {
      return false;
    }
    if |a.zout| + len > a.capacity {
      ok := a.Zexpand(|a.zout|, len);
      if !ok {
        return;
      }
    }
    SliceOf(a.zbuffer, a.pos, len);
    a.zout := a.zout + a.zbuffer[a.pos..a.pos + len];
    a.pos := a.pos + len;
    ok := true;
  }

  lemma SliceOf(s: seq<Byte>, i: nat, n: nat)
    requires i + n <= |s|
    ensures s[i..][..n] == s[i..i + n] && s[i..][n..] == s[i + n..]
  {
  }

  // ----- dynamic codes

  /** Lines 4351 to 4355: three bits for each code length code. */
  method ReceiveSizes(a: ZBuf, hclen: nat) returns (sizes: Lengths)
    requires a.Valid() && hclen <= 19
    modifies a`pos, a`numBits, a`codeBuffer
    ensures a.Valid() && |sizes| == 19 && ExactSizes(0, hclen, seq(19, _ => 0), old(a.View())) == (sizes, a.View())
  {
    hide Receive, LENGTH_DEZIGZAG, Pow2;
    DezigzagRange();
    sizes := seq(19, _ => 0);
    var i := 0;
    while i < hclen
      invariant i <= hclen && |sizes| == 19 && a.Valid()
      invariant ExactSizes(i, hclen, sizes, a.View()) == ExactSizes(0, hclen, seq(19, _ => 0), old(a.View()))
    {
      var s := a.Zreceive(3);
      ThreeBits(s);
      sizes := sizes[LENGTH_DEZIGZAG[i] := s];
      i := i + 1;
    }
  }

  /** Lines 4367 to 4373: how long a run is. */
  method ReceiveRun(a: ZBuf, c: nat) returns (count: nat)
    requires a.Valid() && 16 <= c < 19
    modifies a`pos, a`numBits, a`codeBuffer
    ensures a.Valid() && count >= 3
    ensures var k := Receive(RunBits(c), old(a.View()));
      count == k.0 + RunBase(c) && a.View() == k.1
  {
    hide Receive;
    if c == 16 {
      count := a.Zreceive(2);
      count := count + 3;
    } else if c == 17 {
      count := a.Zreceive(3);
      count := count + 3;
    } else {
      count := a.Zreceive(7);
      count := count + 11;
    }
  }

  /** Lines 4358 to 4382: the code lengths of both alphabets in one list. */
  method ReceiveLengths(a: ZBuf, z: ZHuffman, ghost code: Lengths, ntot: nat) returns (ok: bool, lencodes: Lengths)
    requires a.Valid() && z.Tables(code) && |code| == 19
    modifies a`pos, a`numBits, a`codeBuffer
    ensures a.Valid() && (ok ==> |lencodes| == ntot)
    ensures match ExactLengths(code, ntot, [], old(a.View()))
            case Ok(value, rest) => ok && lencodes == value && a.View() == rest
            case Err => !ok
  {
    hide NextSymbol, Receive, ExactLengths, RunBits, RunBase, AddRun;
    lencodes := [];
    while |lencodes| < ntot
      invariant a.Valid() && |lencodes| <= ntot
      invariant ExactLengths(code, ntot, lencodes, a.View()) == ExactLengths(code, ntot, [], old(a.View()))
      decreases ntot - |lencodes|
    {
      LengthsStep(code, ntot, lencodes, a.View());
      var c := a.Decode(z, code);
      if c < 0 {
        return false, lencodes;
      }
      if c < 16 {
        lencodes := lencodes + [c];
      } else {
        var count := ReceiveRun(a, c);
        if c == 16 && |lencodes| == 0 {
          return false, lencodes;
        }
        var fill := if c == 16 then lencodes[|lencodes| - 1] else 0;
        if ntot - |lencodes| < count {
          return false, lencodes;
        }
        lencodes := AddRun(lencodes, ntot, count, fill);
      }
    }
    ok := true;
    LengthsEnd(code, ntot, lencodes, a.View());
  }

  lemma LengthsEnd(code: Lengths, total: nat, lens: Lengths, i: Input)
    requires |code| == 19 && |lens| == total && |i.held| <= 32
    ensures ExactLengths(code, total, lens, i) == Ok(lens, i)
  {
  }

  /** One symbol of the run-length coded lists. */
  lemma LengthsStep(code: Lengths, total: nat, lens: Lengths, i: Input)
    requires |code| == 19 && |lens| < total && |i.held| <= 32
    ensures var s := NextSymbol(code, i);
      ExactLengths(code, total, lens, i) ==
      if s.Err? then Err
      else if s.value < 16 then ExactLengths(code, total, lens + [s.value], s.input)
      else
        var k := Receive(RunBits(s.value), s.input);
        var count := k.0 + RunBase(s.value);
        if (s.value == 16 && |lens| == 0) || total - |lens| < count then Err
        else ExactLengths(code, total, AddRun(lens, total, count, if s.value == 16 then lens[|lens| - 1] else 0), k.1)
  {
    hide NextSymbol, Receive, RunBits;
  }

  /** Lines 4351 to 4384: both tables from the run-length coded lists. */
  method ReceiveTables(a: ZBuf, hlit: nat, hdist: nat, hclen: nat)
    returns (ok: bool, ghost lit: Lengths, ghost dist: Lengths)
    requires a.Valid() && a.zLength.Valid() && a.zDistance.Valid() && Separate(a)
    requires hclen <= 19 && hlit <= ZNSYMS && hdist <= 32
    modifies a`pos, a`numBits, a`codeBuffer, a.zLength, a.zDistance
    ensures a.Valid() && a.zLength.Valid() && a.zDistance.Valid()
    ensures ok ==> a.zLength.Tables(lit) && a.zDistance.Tables(dist)
    ensures match ExactTables(hlit, hdist, hclen, old(a.View()))
            case Ok(codes, rest) => ok && lit == codes.lit && dist == codes.dist && a.View() == rest
            case Err => !ok
  {
    hide ExactSizes, ExactLengths, Accepted, RangesHold, SymbolsHold, FastHolds;
    lit, dist := [], [];
    var zCodelength := new ZHuffman();
    var codelengthSizes := ReceiveSizes(a, hclen);
    ok := zCodelength.Build(codelengthSizes);
    if !ok {
      return;
    }
    var lencodes;
    ok, lencodes := ReceiveLengths(a, zCodelength, codelengthSizes, hlit + hdist);
    if !ok {
      return;
    }
    lit, dist := lencodes[..hlit], lencodes[hlit..];
    ok := a.zLength.Build(lencodes[..hlit]);
    if !ok {
      return;
    }
    ok := a.zDistance.Build(lencodes[hlit..]);
  }

  /** stbi__compute_huffman_codes. */
  method ComputeHuffmanCodes(a: ZBuf) returns (ok: bool, ghost lit: Lengths, ghost dist: Lengths)
    requires a.Valid() && a.zLength.Valid() && a.zDistance.Valid() && Separate(a)
    modifies a`pos, a`numBits, a`codeBuffer, a.zLength, a.zDistance
    ensures a.Valid() && a.zLength.Valid() && a.zDistance.Valid()
    ensures ok ==> a.zLength.Tables(lit) && a.zDistance.Tables(dist)
    ensures match ExactCodes(old(a.View()))
            case Ok(codes, rest) => ok && lit == codes.lit && dist == codes.dist && a.View() == rest
            case Err => !ok
  {
    hide Receive, ExactTables, Accepted, Pow2, RangesHold, SymbolsHold, FastHolds;
    SmallPowers();
    var hlit := a.Zreceive(5);
    var hdist := a.Zreceive(5);
    var hclen := a.Zreceive(4);
    FourBits(hclen);
    ok, lit, dist := ReceiveTables(a, hlit + 257, hdist + 1, hclen + 4);
  }

  // ----- the zlib wrapper

  /** A zlib header that the inflater takes (RFC 1950, section 2.2). */
  predicate GoodHeader(cmf: Byte, flg: Byte) {
    Word(flg, cmf) % 31 == 0 && !BitSet(flg, 5) && cmf % 16 == 8
  }

  /** Method 8, no preset dictionary, and a check value that makes the two bytes a multiple of 31. */
  lemma GoodHeaderIs(cmf: Byte, flg: Byte)
    ensures GoodHeader(cmf, flg) <==> cmf % 16 == 8 && flg / 32 % 2 == 0 && (256 * (cmf as int) + flg as int) % 31 == 0
  {
    BitOf32(flg);
    hide BitSet;
  }

  lemma BitOf32(x: nat)
    ensures BitSet(x, 5) <==> x / 32 % 2 == 1
  {
    SmallPowers();
    hide Pow2;
  }

  /** stbi__parse_zlib_header. */
  method ParseZlibHeader(a: ZBuf) returns (ok: bool)
    requires a.Valid() && a.pos == 0
    modifies a`pos
    ensures a.Valid()
    ensures ok <==> |a.zbuffer| > 2 && GoodHeader(a.zbuffer[0], a.zbuffer[1])
    ensures ok ==> a.pos == 2
  {
    var cmf := a.Zget8();
    var cm := cmf % 16;
    var flg := a.Zget8();
    if a.Zeof() {
      return false;
    }
    if Word(flg, cmf) % 31 != 0 {
      return false;
    }
    AndOneBit(flg, 5);
    if And(flg, 32) != 0 {
      return false;
    }
    if cm != 8 {
      return false;
    }
    ok := true;
  }

  /** A mask of one bit tests that bit. */
  lemma AndOneBit(x: nat, n: nat)
    ensures And(x, Pow2(n)) != 0 <==> BitSet(x, n)
    ensures Pow2(5) == 32
  {
    SmallPowers();
    hide And, BitSet, Pow2;
    AndPow2(x, n);
  }

  lemma {:induction false} AndPow2(x: nat, n: nat)
    ensures And(x, Pow2(n)) == if BitSet(x, n) then Pow2(n) else 0
    decreases n
  {
    if n == 0 {
      assert x / 1 == x;
      if x > 0 {
        AndDigits(x, 1);
        assert And(x / 2, 0) == 0;
        assert And(x, 1) == And(x, 1) % 2 + 2 * (And(x, 1) / 2);
      }
    } else {
      AndPow2(x / 2, n - 1);
      AndDigits(x, Pow2(n));
      hide BitSet;
      BitHalf(x, n);
    }
  }

  /** One block of any type, after its three header bits. */
  method ParseBlock(a: ZBuf, blockType: nat) returns (ok: bool)
    requires a.Valid() && a.zLength.Valid() && a.zDistance.Valid() && Separate(a) && a.numBits <= 30 && blockType < 4
    modifies a`pos, a`numBits, a`codeBuffer, a`zout, a`capacity, a.zLength, a.zDistance
    ensures a.Valid() && a.zLength.Valid() && a.zDistance.Valid() && a.Limit() == old(a.Limit())
    ensures Parsed(ExactOne(blockType, old(a.View()), old(a.zout), old(a.Limit())), ok, a.zout, a.View())
  {
    hide ExactStored, ExactBlock, ExactCodes, FixedLengths, FixedDistances, Pow2, OutputLimit, ToBits;
    if blockType == 0 {
      ok := ParseUncompressedBlock(a);
    } else if blockType == 3 {
      return false;
    } else {
      ghost var lit, dist;
      if blockType == 1 {
        FixedFirst();
        DistanceCode(0);
        FixedCode(0);
        lit, dist := FixedLengths(), FixedDistances();
        ok := a.zLength.Build(FixedLengths());
        if !ok {
          return;
        }
        ok := a.zDistance.Build(FixedDistances());
        if !ok {
          return;
        }
      } else {
        ok, lit, dist := ComputeHuffmanCodes(a);
        if !ok {
          return;
        }
      }
      ok := ParseHuffmanBlock(a, lit, dist);
    }
  }

  /** What the inflater makes of a zlib stream, or of a bare DEFLATE stream. */
  ghost function ExactZlib(data: seq<Byte>, parseHeader: bool, out: seq<Byte>, limit: nat): (r: Exact<seq<Byte>>)
    requires |out| <= limit
  {
    if !parseHeader then ExactStream(Input([], data), out, limit)
    else if |data| <= 2 || !GoodHeader(data[0], data[1]) then Err
    else ExactStream(Input([], data[2..]), out, limit)
  }

  /** stbi__parse_zlib: the header on request, then blocks up to the final one. */
  method ParseZlib(a: ZBuf, parseHeader: bool) returns (ok: bool)
    requires a.Valid() && a.zLength.Valid() && a.zDistance.Valid() && Separate(a) && a.pos == 0
    modifies a, a.zLength, a.zDistance
    ensures a.Valid() && a.Limit() == old(a.Limit())
    ensures Parsed(ExactZlib(a.zbuffer, parseHeader, old(a.zout), old(a.Limit())), ok, a.zout, a.View())
  {
    hide ToBits, ExactStream, Pow2, GoodHeader, OutputLimit;
    if parseHeader {
      ok := ParseZlibHeader(a);
      if !ok {
        return;
      }
    }
    a.numBits, a.codeBuffer := 0, 0;
    Pow2Zero();
    NoBits(0);
    assert a.View() == Input([], a.zbuffer[a.pos..]);
    assert a.zbuffer[0..] == a.zbuffer;
    ok := ParseBlocks(a);
  }

  /** Lines 4467 to 4485. */
  method ParseBlocks(a: ZBuf) returns (ok: bool)
    requires a.Valid() && a.zLength.Valid() && a.zDistance.Valid() && Separate(a)
    modifies a`pos, a`numBits, a`codeBuffer, a`zout, a`capacity, a.zLength, a.zDistance
    ensures a.Valid() && a.Limit() == old(a.Limit())
    ensures Parsed(ExactStream(old(a.View()), old(a.zout), old(a.Limit())), ok, a.zout, a.View())
  {
    hide ToBits, FromBits, ExactStream, ExactOne, Receive, Pow2, OutputLimit;
    ghost var goal := ExactStream(a.View(), a.zout, a.Limit());
    ok := true;
    var final := false;
    while !final
      invariant a.Valid() && a.zLength.Valid() && a.zDistance.Valid() && a.Limit() == old(a.Limit())
      invariant if final then Parsed(goal, ok, a.zout, a.View())
                else ExactStream(a.View(), a.zout, a.Limit()) == goal
      decreases !final, |a.View().ahead|, FromBits(a.View().held)
    {
      StreamStep(a.View(), a.zout, a.Limit());
      var f := a.Zreceive(1);
      final := f == 1;
      var blockType := a.Zreceive(2);
      TwoBits(f, blockType);
      ok := ParseBlock(a, blockType);
      if !ok {
        return;
      }
    }
  }

  /** One block further. */
  lemma StreamStep(i: Input, out: seq<Byte>, limit: nat)
    requires |i.held| <= 32 && |out| <= limit
    ensures var final := Receive(1, i);
      var b := Receive(2, final.1);
      var r := ExactOne(b.0, b.1, out, limit);
      && (r.Ok? ==> Less(i, r.input))
      && ExactStream(i, out, limit) == if r.Ok? && final.0 == 0 then ExactStream(r.input, r.value, limit) else r
  {
    hide Receive, ExactOne, FromBits;
    OneLess(i, out, limit);
  }

  lemma TwoBits(f: nat, s: nat)
    requires f < Pow2(1) && s < Pow2(2)
    ensures f < 2 && s < 4
  {
    SmallPowers();
  }

  // ----- what the format says

  /** What a zlib stream, or a bare DEFLATE stream, means in the format. */
  ghost function ZlibMeaning(data: seq<Byte>, parseHeader: bool, out: seq<Byte>): Inflated {
    if !parseHeader then InflateStream(BytesBits(data), out)
    else if |data| <= 2 || !GoodHeader(data[0], data[1]) then Corrupt
    else InflateStream(BytesBits(data[2..]), out)
  }

  /** Wherever the meaning in the format is settled, the inflater computes it, as far as the output has room. */
  lemma ZlibAgrees(data: seq<Byte>, parseHeader: bool, out: seq<Byte>, limit: nat)
    requires |out| <= limit
    ensures Agree(ZlibMeaning(data, parseHeader, out), ExactZlib(data, parseHeader, out, limit), limit)
  {
    hide InflateStream, ExactStream, BytesBits, GoodHeader, AllBits;
    NothingHeld();
    if !parseHeader {
      StreamAgrees(Input([], data), out, limit);
    } else if |data| > 2 {
      StreamAgrees(Input([], data[2..]), out, limit);
    }
  }
}
