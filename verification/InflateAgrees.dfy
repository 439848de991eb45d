// The inflater agrees with the format (RFC 1951) wherever the format's meaning is settled: wherever 32 bits are left at
// every read, 40 in front of a block header.
module InflateAgrees {
  import opened Sequences
  import opened BitOps
  import opened BitStream
  import opened Options
  import opened BitOutput
  import opened CanonicalCode
  import opened DeflateFormat
  import opened InflateSpec
  import opened InflateStreamSpec
  import opened InflateInput
  import opened InflateExact

  /** The same output and the same rest if there is room for the output, and the same errors. */
  ghost predicate Agree(goal: Inflated, r: Exact<seq<Byte>>, limit: nat) {
    match goal
    case Done(out, rest) => if |out| <= limit then r.Ok? && r.value == out && AllBits(r.input) == rest else r.Err?
    case Corrupt => r.Err?
    case Short => true
  }

  ghost predicate AgreeRead<T(!new)>(goal: Read<T>, r: Exact<T>) {
    match goal
    case Got(value, rest) => r.Ok? && r.value == value && AllBits(r.input) == rest
    case Failed => r.Err?
    case Ran => true
  }

  // ----- blocks of compressed data

  lemma ExtraAgrees(base: nat, extra: nat, i: Input)
    requires |i.held| <= 32 && extra <= 16
    ensures var r := ReadExtra(base, extra, AllBits(i));
      r.Extra? ==> WithExtra(base, extra, i).0 == r.value && AllBits(WithExtra(base, extra, i).1) == r.rest
  {
    hide Receive, FromBits, AllBits;
    if extra > 0 && |AllBits(i)| >= 32 {
      ReceiveKeeps(extra, i);
    }
  }

  ghost predicate AgreeItem(goal: Item, r: Exact<Piece>) {
    match goal
    case OneByte(byte, rest) => r.Ok? && r.value == PieceByte(byte) && AllBits(r.input) == rest
    case Copy(length, distance, rest) =>
      r.Ok? && r.value == PieceCopy(length, distance) && AllBits(r.input) == rest
    case EndOfBlock(rest) => r.Ok? && r.value == PieceEnd && AllBits(r.input) == rest
    case WrongItem => r.Err?
    case ShortItem => true
  }

  lemma DistanceAgrees(dist: Lengths, length: nat, i: Input)
    requires |i.held| <= 32
    ensures AgreeItem(ReadDistance(dist, length, AllBits(i)), NextDistance(dist, length, i))
  {
    hide Symbol, NextSymbol, AllBits, ReadExtra, WithExtra, DIST_BASE, DIST_EXTRA;
    TableSizes();
    if |AllBits(i)| >= 32 {
      SymbolKeeps(dist, i);
      var s := NextSymbol(dist, i);
      if s.Ok? && s.value < 30 {
        ExtraAgrees(DIST_BASE[s.value], DIST_EXTRA[s.value], s.input);
      }
    }
  }

  lemma PieceAgrees(lit: Lengths, dist: Lengths, i: Input)
    requires |i.held| <= 32
    ensures AgreeItem(ReadItem(lit, dist, AllBits(i)), NextPiece(lit, dist, i))
  {
    hide Symbol, NextSymbol, AllBits, ReadExtra, WithExtra, ReadDistance, NextDistance, LENGTH_BASE, LENGTH_EXTRA;
    TableSizes();
    if |AllBits(i)| >= 32 {
      SymbolKeeps(lit, i);
      var s := NextSymbol(lit, i);
      if s.Ok? && 256 < s.value < 286 {
        var z := s.value - 257;
        ExtraAgrees(LENGTH_BASE[z], LENGTH_EXTRA[z], s.input);
        var l := WithExtra(LENGTH_BASE[z], LENGTH_EXTRA[z], s.input);
        DistanceAgrees(dist, l.0, l.1);
      }
    }
  }

  lemma {:induction false} BlockAgrees(lit: Lengths, dist: Lengths, i: Input, out: seq<Byte>, limit: nat)
    requires |i.held| <= 32 && |out| <= limit
    ensures Agree(InflateBlock(lit, dist, AllBits(i), out), ExactBlock(lit, dist, i, out, limit), limit)
    decreases limit - |out|
  {
    hide ReadItem, NextPiece, AllBits, CopyMatch;
    PieceAgrees(lit, dist, i);
    match NextPiece(lit, dist, i)
    case Err =>
    case Ok(PieceByte(byte), j) =>
      if |out| < limit {
        BlockAgrees(lit, dist, j, out + [byte], limit);
      }
    case Ok(PieceCopy(length, distance), j) =>
      if distance <= |out| && |out| + length <= limit {
        BlockAgrees(lit, dist, j, CopyMatch(out, length, distance), limit);
      }
    case Ok(PieceEnd, j) =>
  }

  // ----- stored blocks

  /** Two header bytes are a sixteen-bit number, the low byte first. */
  lemma HeaderNumber(x: Byte, y: Byte, rest: Bits)
    ensures FromBits((ToBits(x, 8) + ToBits(y, 8) + rest)[..16]) == Word(x, y)
  {
    hide ToBits, FromBits;
    SmallPowers();
    hide Pow2;
    var b := ToBits(x, 8) + ToBits(y, 8);
    assert (b + rest)[..16] == b;
    FromBitsConcat(ToBits(x, 8), ToBits(y, 8));
    FromToBits(x, 8);
    FromToBits(y, 8);
  }

  lemma HeaderNumbers(aligned: Bits, h: seq<Byte>, rest: Bits)
    requires |h| == 4 && aligned == BytesBits(h) + rest
    ensures |aligned| == 32 + |rest| && aligned[32..] == rest
    ensures FromBits(aligned[..16]) == Word(h[0], h[1]) && FromBits(aligned[16..32]) == Word(h[2], h[3])
  {
    hide ToBits, FromBits;
    FourBytes(h);
    var a, b, c, d := ToBits(h[0], 8), ToBits(h[1], 8), ToBits(h[2], 8), ToBits(h[3], 8);
    assert aligned == a + b + (c + d + rest);
    assert aligned[16..] == c + d + rest;
    HeaderNumber(h[0], h[1], c + d + rest);
    HeaderNumber(h[2], h[3], rest);
    assert aligned[16..32] == aligned[16..][..16];
  }

  lemma FourBytes(h: seq<Byte>)
    requires |h| == 4
    ensures BytesBits(h) == ToBits(h[0], 8) + ToBits(h[1], 8) + (ToBits(h[2], 8) + ToBits(h[3], 8))
  {
    hide ToBits, BytesBits;
    assert h == [h[0]] + ([h[1]] + ([h[2]] + [h[3]]));
    BytesBitsConcat([h[0]], [h[1]] + ([h[2]] + [h[3]]));
    BytesBitsConcat([h[1]], [h[2]] + [h[3]]);
    BytesBitsConcat([h[2]], [h[3]]);
    BytesBitsOne(h[0]);
    BytesBitsOne(h[1]);
    BytesBitsOne(h[2]);
    BytesBitsOne(h[3]);
    Reassociate(ToBits(h[0], 8), ToBits(h[1], 8), ToBits(h[2], 8) + ToBits(h[3], 8));
  }

  lemma StoredIs(aligned: Bits, out: seq<Byte>, len: nat, nlen: nat, input: seq<Byte>)
    requires |aligned| == 32 + 8 * |input| && aligned[32..] == BytesBits(input)
    requires len == FromBits(aligned[..16]) && nlen == FromBits(aligned[16..32])
    ensures InflateAligned(aligned, out) ==
            if nlen != 65535 - len || len > |input| then Corrupt
            else Done(out + input[..len], BytesBits(input[len..]))
  {
    hide FromBits, BytesBits, BytesOf, InflateAligned;
    if len <= |input| && nlen == 65535 - len {
      SplitInput(input, len);
      BytesOfBits(input[..len]);
      SkipHeader(aligned, 8 * len);
      AlignedFits(aligned, out, len, BytesBits(input[..len]), BytesBits(input[len..]));
    } else {
      AlignedCorrupt(aligned, out, len, nlen);
    }
  }

  lemma AlignedCorrupt(b: Bits, out: seq<Byte>, len: nat, nlen: nat)
    requires |b| >= 32 && len == FromBits(b[..16]) && nlen == FromBits(b[16..32])
    requires nlen != 65535 - len || |b| < 32 + 8 * len
    ensures InflateAligned(b, out).Corrupt?
  {
    hide FromBits, BytesOf;
  }

  lemma AlignedFits(b: Bits, out: seq<Byte>, len: nat, stored: Bits, rest: Bits)
    requires |b| >= 32 + 8 * len && len == FromBits(b[..16]) && FromBits(b[16..32]) == 65535 - len
    requires b[32..32 + 8 * len] == stored && b[32 + 8 * len..] == rest
    ensures InflateAligned(b, out) == Done(out + BytesOf(stored), rest)
  {
    hide FromBits, BytesOf;
  }

  lemma SplitInput(input: seq<Byte>, len: nat)
    requires len <= |input|
    ensures BytesBits(input)[..8 * len] == BytesBits(input[..len])
    ensures BytesBits(input)[8 * len..] == BytesBits(input[len..])
  {
    hide BytesBits;
    assert input == input[..len] + input[len..];
    BytesBitsConcat(input[..len], input[len..]);
  }

  lemma SkipHeader(b: Bits, n: nat)
    requires 32 + n <= |b|
    ensures b[32..32 + n] == b[32..][..n] && b[32 + n..] == b[32..][n..]
  {
  }

  lemma {:induction false} BitsOfBytes(b: Bits)
    requires |b| % 8 == 0
    ensures BytesBits(BytesOf(b)) == b
    decreases |b|
  {
    if |b| >= 8 {
      hide ToBits, FromBits;
      BitsOfBytes(b[8..]);
      ToFromBits(b[..8]);
      assert b[..8] + b[8..] == b;
      assert BytesOf(b)[1..] == BytesOf(b[8..]);
    }
  }

  /** From the byte boundary on, the stream is whole bytes. */
  lemma AlignedIs(i: Input)
    ensures |i.held| % 8 == |AllBits(i)| % 8 && AllBits(i)[|AllBits(i)| % 8..] == BytesBits(AlignedBytes(i))
  {
    hide BytesBits, BytesOf;
    var n := |i.held| % 8;
    BitsOfBytes(i.held[n..]);
    BytesBitsConcat(BytesOf(i.held[n..]), i.ahead);
    assert AllBits(i)[n..] == i.held[n..] + BytesBits(i.ahead);
  }

  lemma StoredAgrees(i: Input, out: seq<Byte>, limit: nat)
    requires |i.held| < 32 && |out| <= limit
    ensures Agree(InflateStored(AllBits(i), out), ExactStored(i, out, limit), limit)
  {
    hide BytesBits, BytesOf, AllBits, InflateAligned;
    AlignedIs(i);
    var s := AlignedBytes(i);
    if |s| >= 4 {
      assert s == s[..4] + s[4..];
      BytesBitsConcat(s[..4], s[4..]);
      HeaderNumbers(BytesBits(s), s[..4], BytesBits(s[4..]));
      StoredIs(BytesBits(s), out, Word(s[0], s[1]), Word(s[2], s[3]), s[4..]);
      NothingHeld();
    } else {
      ShortStored(BytesBits(s), out);
    }
  }

  lemma NothingHeld()
    ensures forall t: seq<Byte> :: AllBits(Input([], t)) == BytesBits(t)
  {
    hide BytesBits;
    forall t: seq<Byte> ensures AllBits(Input([], t)) == BytesBits(t) {
      assert [] + BytesBits(t) == BytesBits(t);
    }
  }

  lemma ShortStored(aligned: Bits, out: seq<Byte>)
    requires |aligned| < 32
    ensures InflateAligned(aligned, out).Short?
  {
  }

  // ----- dynamic codes

  lemma ReadAgrees(n: nat, i: Input)
    requires |i.held| <= 32 && n <= 16
    ensures AgreeRead(ReadBits(n, AllBits(i)), Ok(Receive(n, i).0, Receive(n, i).1))
  {
    hide AllBits, Receive, FromBits;
    if |AllBits(i)| >= 32 {
      ReceiveKeeps(n, i);
    }
  }

  lemma {:induction false} SizesAgree(k: nat, hclen: nat, sizes: Lengths, i: Input)
    requires k <= hclen <= 19 && |sizes| == 19 && |i.held| <= 32
    ensures AgreeRead(ReadSizes(k, hclen, sizes, AllBits(i)),
                      Ok(ExactSizes(k, hclen, sizes, i).0, ExactSizes(k, hclen, sizes, i).1))
    decreases hclen - k
  {
    hide AllBits, Receive, ReadBits, LENGTH_DEZIGZAG;
    if k < hclen {
      DezigzagRange();
      ReadAgrees(3, i);
      var s := Receive(3, i);
      ThreeBits(s.0);
      SizesAgree(k + 1, hclen, sizes[LENGTH_DEZIGZAG[k] := s.0], s.1);
    }
  }

  lemma {:induction false} LengthsAgree(code: Lengths, total: nat, lens: Lengths, i: Input)
    requires |lens| <= total && |code| == 19 && |i.held| <= 32
    ensures AgreeRead(ReadLengths(code, total, lens, AllBits(i)), ExactLengths(code, total, lens, i))
    decreases total - |lens|
  {
    hide AllBits, Receive, ReadBits, NextSymbol, Symbol, AddRun, RunBits, RunBase;
    if |lens| < total && |AllBits(i)| >= 32 {
      SymbolKeeps(code, i);
      match NextSymbol(code, i)
      case Err =>
      case Ok(c, j) =>
        if c < 16 {
          LengthsAgree(code, total, lens + [c], j);
        } else {
          ReadAgrees(RunBits(c), j);
          var k := Receive(RunBits(c), j);
          var count := k.0 + RunBase(c);
          if (c != 16 || |lens| > 0) && total - |lens| >= count {
            RunPositive(c);
            LengthsAgree(code, total, AddRun(lens, total, count, if c == 16 then lens[|lens| - 1] else 0), k.1);
          }
        }
    }
  }

  lemma RunPositive(c: nat)
    ensures RunBase(c) >= 3
  {
  }

  lemma TablesAgree(hlit: nat, hdist: nat, hclen: nat, i: Input)
    requires hclen <= 19 && |i.held| <= 32
    ensures AgreeRead(ReadTables(hlit, hdist, hclen, AllBits(i)), ExactTables(hlit, hdist, hclen, i))
  {
    hide AllBits, ReadSizes, ReadLengths, ExactSizes, ExactLengths, Accepted;
    SizesAgree(0, hclen, seq(19, _ => 0), i);
    var sizes := ExactSizes(0, hclen, seq(19, _ => 0), i);
    LengthsAgree(sizes.0, hlit + hdist, [], sizes.1);
  }

  lemma CodesAgree(i: Input)
    requires |i.held| <= 32
    ensures AgreeRead(ReadCodes(AllBits(i)), ExactCodes(i))
  {
    hide AllBits, Receive, ReadBits, ReadTables, ExactTables;
    var hlit := Receive(5, i);
    var hdist := Receive(5, hlit.1);
    var hclen := Receive(4, hdist.1);
    ReadAgrees(5, i);
    ReadAgrees(5, hlit.1);
    ReadAgrees(4, hdist.1);
    FourBits(hclen.0);
    TablesAgree(hlit.0 + 257, hdist.0 + 1, hclen.0 + 4, hclen.1);
  }

  // ----- streams

  lemma OneAgrees(blockType: nat, i: Input, out: seq<Byte>, limit: nat)
    requires |i.held| < 32 && |out| <= limit
    ensures Agree(InflateOne(blockType, AllBits(i), out), ExactOne(blockType, i, out, limit), limit)
  {
    hide AllBits, InflateStored, ExactStored, InflateBlock, ExactBlock, ReadCodes, ExactCodes, FixedLengths,
         FixedDistances;
    if blockType == 0 {
      StoredAgrees(i, out, limit);
    } else if blockType == 1 {
      BlockAgrees(FixedLengths(), FixedDistances(), i, out, limit);
    } else if blockType == 2 {
      CodesAgree(i);
      var codes := ExactCodes(i);
      if codes.Ok? {
        BlockAgrees(codes.value.lit, codes.value.dist, codes.input, out, limit);
      }
    }
  }

  /** A whole stream. */
  lemma {:induction false} StreamAgrees(i: Input, out: seq<Byte>, limit: nat)
    requires |i.held| <= 32 && |out| <= limit
    ensures Agree(InflateStream(AllBits(i), out), ExactStream(i, out, limit), limit)
    decreases |AllBits(i)|
  {
    var bits := AllBits(i);
    hide AllBits, Receive, FromBits, InflateOne, ExactOne;
    if |bits| >= 40 {
      var final := Receive(1, i);
      var b := Receive(2, final.1);
      ReceiveKeeps(1, i);
      ReceiveKeeps(2, final.1);
      HeadBits(bits);
      OneAgrees(b.0, b.1, out, limit);
      var r := ExactOne(b.0, b.1, out, limit);
      if InflateOne(b.0, bits[3..], out).Done? && r.Ok? && !bits[0] {
        StreamAgrees(r.input, r.value, limit);
      }
    }
  }

  lemma HeadBits(bits: Bits)
    requires |bits| >= 3
    ensures FromBits(bits[..1]) == (if bits[0] then 1 else 0)
    ensures bits[1..][..2] == bits[1..3] && bits[1..][2..] == bits[3..]
    ensures FromBits(bits[1..3]) < 4
  {
    var b := bits[..1];
    assert b[1..] == [];
    assert FromBits([]) == 0;
    FromBitsBound(bits[1..3]);
    SmallPowers();
  }

}
