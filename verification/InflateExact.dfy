// What the inflater makes of any input and any limit on its output, to the last bit (stb/stb_image.h:4259-4486): with
// made-up zeros past the end of the data, and with every error.
module InflateExact {
  import opened BitOps
  import opened BitStream
  import opened Options
  import opened BitOutput
  import opened CanonicalCode
  import opened DeflateFormat
  import opened InflateSpec
  import opened InflateStreamSpec
  import opened InflateInput

  // ----- blocks of compressed data

  function WithExtra(base: nat, extra: nat, i: Input): (r: (nat, Input))
    requires |i.held| <= 32 && extra <= 16
    ensures r.0 >= base && |r.1.held| <= 32
  {
    if extra == 0 then (base, i) else (base + Receive(extra, i).0, Receive(extra, i).1)
  }

  datatype Piece = PieceByte(byte: Byte) | PieceCopy(length: nat, distance: nat) | PieceEnd

  ghost function NextDistance(dist: Lengths, length: nat, i: Input): (r: Exact<Piece>)
    requires |i.held| <= 32
    ensures r.Ok? ==> |r.input.held| <= 32 && r.value.PieceCopy? && r.value.length == length && r.value.distance >= 1
  {
    match NextSymbol(dist, i)
    case Err => Err
    case Ok(k, j) =>
      if k >= 30 then Err
      else
        TableSizes();
        var d := WithExtra(DIST_BASE[k], DIST_EXTRA[k], j);
        Ok(PieceCopy(length, d.0), d.1)
  }

  ghost function NextPiece(lit: Lengths, dist: Lengths, i: Input): (r: Exact<Piece>)
    requires |i.held| <= 32
    ensures r.Ok? ==> |r.input.held| <= 32 && (r.value.PieceCopy? ==> r.value.length >= 3 && r.value.distance >= 1)
  {
    match NextSymbol(lit, i)
    case Err => Err
    case Ok(z, j) =>
      if z < 256 then Ok(PieceByte(z), j)
      else if z == 256 then Ok(PieceEnd, j)
      else if z >= 286 then Err
      else
        TableSizes();
        var l := WithExtra(LENGTH_BASE[z - 257], LENGTH_EXTRA[z - 257], j);
        NextDistance(dist, l.0, l.1)
  }

  /** A block, as far as the output has room. */
  ghost function ExactBlock(lit: Lengths, dist: Lengths, i: Input, out: seq<Byte>, limit: nat): (r: Exact<seq<Byte>>)
    requires |i.held| <= 32 && |out| <= limit
    ensures r.Ok? ==> |r.input.held| <= 32 && |out| <= |r.value| <= limit
    decreases limit - |out|
  {
    match NextPiece(lit, dist, i)
    case Err => Err
    case Ok(piece, j) =>
      match piece
      case PieceByte(byte) => if |out| < limit then ExactBlock(lit, dist, j, out + [byte], limit) else Err
      case PieceEnd => Ok(out, j)
      case PieceCopy(length, distance) =>
        if distance > |out| || |out| + length > limit then Err
        else ExactBlock(lit, dist, j, CopyMatch(out, length, distance), limit)
  }

  // ----- stored blocks

  /** The whole bytes left after the bits up to the next byte boundary are dropped. */
  function AlignedBytes(i: Input): seq<Byte> {
    BytesOf(i.held[|i.held| % 8..]) + i.ahead
  }

  /** The first four bytes, with zeros made up. */
  function Header(s: seq<Byte>): (h: seq<Byte>)
    ensures |h| == 4
  {
    if |s| >= 4 then s[..4] else s + seq(4 - |s|, _ => 0)
  }

  function AfterHeader(s: seq<Byte>): seq<Byte> {
    if |s| >= 4 then s[4..] else []
  }

  function Word(low: nat, high: nat): nat {
    high * 256 + low
  }

  function ExactStored(i: Input, out: seq<Byte>, limit: nat): (r: Exact<seq<Byte>>)
    requires |i.held| <= 32 && |out| <= limit
    ensures r.Ok? ==> |r.input.held| <= 32 && |out| <= |r.value| <= limit
  {
    var h, rest := Header(AlignedBytes(i)), AfterHeader(AlignedBytes(i));
    var len := Word(h[0], h[1]);
    if Word(h[2], h[3]) != 65535 - len || len > |rest| || |out| + len > limit then Err
    else Ok(out + rest[..len], Input([], rest[len..]))
  }

  // ----- dynamic codes

  function ExactSizes(k: nat, hclen: nat, sizes: Lengths, i: Input): (r: (Lengths, Input))
    requires k <= hclen <= 19 && |sizes| == 19 && |i.held| <= 32
    ensures |r.0| == 19 && |r.1.held| <= 32
    decreases hclen - k
  {
    if k == hclen then (sizes, i)
    else
      DezigzagRange();
      var s := Receive(3, i);
      ThreeBits(s.0);
      ExactSizes(k + 1, hclen, sizes[LENGTH_DEZIGZAG[k] := s.0], s.1)
  }

  ghost function ExactLengths(code: Lengths, total: nat, lens: Lengths, i: Input): (r: Exact<Lengths>)
    requires |lens| <= total && |code| == 19 && |i.held| <= 32
    ensures r.Ok? ==> |r.value| == total && |r.input.held| <= 32
    decreases total - |lens|
  {
    if |lens| == total then Ok(lens, i)
    else
      match NextSymbol(code, i)
      case Err => Err
      case Ok(c, j) =>
        if c < 16 then ExactLengths(code, total, lens + [c], j)
        else
          var k := Receive(RunBits(c), j);
          var count := k.0 + RunBase(c);
          if c == 16 && |lens| == 0 then Err
          else if total - |lens| < count then Err
          else
            var fill := if c == 16 then lens[|lens| - 1] else 0;
            ExactLengths(code, total, AddRun(lens, total, count, fill), k.1)
  }

  ghost function ExactTables(hlit: nat, hdist: nat, hclen: nat, i: Input): (r: Exact<Codes>)
    requires hclen <= 19 && |i.held| <= 32
    ensures r.Ok? ==> |r.input.held| <= 32 && |r.value.lit| == hlit && |r.value.dist| == hdist
                      && Accepted(r.value.lit) && Accepted(r.value.dist)
  {
    hide ExactSizes, ExactLengths, Accepted;
    var sizes := ExactSizes(0, hclen, seq(19, _ => 0), i);
    if !Accepted(sizes.0) then Err
    else
      match ExactLengths(sizes.0, hlit + hdist, [], sizes.1)
      case Err => Err
      case Ok(lens, j) =>
        if Accepted(lens[..hlit]) && Accepted(lens[hlit..]) then Ok(Codes(lens[..hlit], lens[hlit..]), j) else Err
  }

  ghost function ExactCodes(i: Input): (r: Exact<Codes>)
    requires |i.held| <= 32
    ensures r.Ok? ==> |r.input.held| <= 32
  {
    var hlit := Receive(5, i);
    var hdist := Receive(5, hlit.1);
    var hclen := Receive(4, hdist.1);
    FourBits(hclen.0);
    ExactTables(hlit.0 + 257, hdist.0 + 1, hclen.0 + 4, hclen.1)
  }

  // ----- streams

  ghost function ExactOne(blockType: nat, i: Input, out: seq<Byte>, limit: nat): (r: Exact<seq<Byte>>)
    requires |i.held| <= 32 && |out| <= limit
    ensures r.Ok? ==> |r.input.held| <= 32 && |out| <= |r.value| <= limit
  {
    if blockType == 0 then ExactStored(i, out, limit)
    else if blockType == 1 then ExactBlock(FixedLengths(), FixedDistances(), i, out, limit)
    else if blockType == 2 then
      match ExactCodes(i)
      case Err => Err
      case Ok(codes, j) => ExactBlock(codes.lit, codes.dist, j, out, limit)
    else Err
  }

  /** Blocks up to the one marked final. */
  ghost function ExactStream(i: Input, out: seq<Byte>, limit: nat): (r: Exact<seq<Byte>>)
    requires |i.held| <= 32 && |out| <= limit
    ensures r.Ok? ==> |r.input.held| <= 32 && |out| <= |r.value| <= limit
    decreases |i.ahead|, FromBits(i.held)
  {
    hide FromBits, Receive, ExactOne;
    var final := Receive(1, i);
    var blockType := Receive(2, final.1);
    var r := ExactOne(blockType.0, blockType.1, out, limit);
    OneLess(i, out, limit);
    if r.Ok? && final.0 == 0 then ExactStream(r.input, r.value, limit) else r
  }

  // ----- what is left never grows

  lemma ExtraNoMore(base: nat, extra: nat, i: Input)
    requires |i.held| <= 32 && extra <= 16
    ensures NoMore(i, WithExtra(base, extra, i).1)
  {
    hide Receive, FromBits;
    ReceiveNoMore(extra, i);
  }

  lemma PieceNoMore(lit: Lengths, dist: Lengths, i: Input)
    requires |i.held| <= 32
    ensures NextPiece(lit, dist, i).Ok? ==> NoMore(i, NextPiece(lit, dist, i).input)
  {
    hide NextSymbol, WithExtra, FromBits, LENGTH_BASE, LENGTH_EXTRA, DIST_BASE, DIST_EXTRA;
    TableSizes();
    SymbolNoMore(lit, i);
    if NextPiece(lit, dist, i).Ok? {
      var z, j := NextSymbol(lit, i).value, NextSymbol(lit, i).input;
      if 256 < z < 286 {
        var l := WithExtra(LENGTH_BASE[z - 257], LENGTH_EXTRA[z - 257], j);
        ExtraNoMore(LENGTH_BASE[z - 257], LENGTH_EXTRA[z - 257], j);
        SymbolNoMore(dist, l.1);
        var k, j2 := NextSymbol(dist, l.1).value, NextSymbol(dist, l.1).input;
        ExtraNoMore(DIST_BASE[k], DIST_EXTRA[k], j2);
      }
    }
  }

  lemma {:induction false} BlockNoMore(lit: Lengths, dist: Lengths, i: Input, out: seq<Byte>, limit: nat)
    requires |i.held| <= 32 && |out| <= limit
    ensures ExactBlock(lit, dist, i, out, limit).Ok? ==> NoMore(i, ExactBlock(lit, dist, i, out, limit).input)
    decreases limit - |out|
  {
    hide NextPiece, FromBits, CopyMatch;
    PieceNoMore(lit, dist, i);
    match NextPiece(lit, dist, i)
    case Err =>
    case Ok(PieceByte(byte), j) =>
      if |out| < limit {
        BlockNoMore(lit, dist, j, out + [byte], limit);
      }
    case Ok(PieceCopy(length, distance), j) =>
      if distance <= |out| && |out| + length <= limit {
        BlockNoMore(lit, dist, j, CopyMatch(out, length, distance), limit);
      }
    case Ok(PieceEnd, j) =>
  }

  lemma {:induction false} SizesNoMore(k: nat, hclen: nat, sizes: Lengths, i: Input)
    requires k <= hclen <= 19 && |sizes| == 19 && |i.held| <= 32
    ensures NoMore(i, ExactSizes(k, hclen, sizes, i).1)
    decreases hclen - k
  {
    hide Receive, FromBits, LENGTH_DEZIGZAG;
    if k < hclen {
      DezigzagRange();
      var s := Receive(3, i);
      ThreeBits(s.0);
      ReceiveNoMore(3, i);
      SizesNoMore(k + 1, hclen, sizes[LENGTH_DEZIGZAG[k] := s.0], s.1);
    }
  }

  lemma {:induction false} LengthsNoMore(code: Lengths, total: nat, lens: Lengths, i: Input)
    requires |lens| <= total && |code| == 19 && |i.held| <= 32
    ensures ExactLengths(code, total, lens, i).Ok? ==> NoMore(i, ExactLengths(code, total, lens, i).input)
    decreases total - |lens|
  {
    hide Receive, NextSymbol, FromBits, AddRun, RunBits;
    if |lens| < total {
      SymbolNoMore(code, i);
      match NextSymbol(code, i)
      case Err =>
      case Ok(c, j) =>
        if c < 16 {
          LengthsNoMore(code, total, lens + [c], j);
        } else {
          ReceiveNoMore(RunBits(c), j);
          var k := Receive(RunBits(c), j);
          var count := k.0 + RunBase(c);
          if (c != 16 || |lens| > 0) && total - |lens| >= count {
            var fill := if c == 16 then lens[|lens| - 1] else 0;
            LengthsNoMore(code, total, AddRun(lens, total, count, fill), k.1);
          }
        }
    }
  }

  lemma CodesNoMore(i: Input)
    requires |i.held| <= 32
    ensures ExactCodes(i).Ok? ==> NoMore(i, ExactCodes(i).input)
  {
    hide Receive, FromBits, ExactTables;
    var hlit := Receive(5, i);
    var hdist := Receive(5, hlit.1);
    var hclen := Receive(4, hdist.1);
    ReceiveNoMore(5, i);
    ReceiveNoMore(5, hlit.1);
    ReceiveNoMore(4, hdist.1);
    FourBits(hclen.0);
    TablesNoMore(hlit.0 + 257, hdist.0 + 1, hclen.0 + 4, hclen.1);
  }

  lemma TablesNoMore(hlit: nat, hdist: nat, hclen: nat, i: Input)
    requires hclen <= 19 && |i.held| <= 32
    ensures ExactTables(hlit, hdist, hclen, i).Ok? ==> NoMore(i, ExactTables(hlit, hdist, hclen, i).input)
  {
    hide ExactSizes, ExactLengths, FromBits, Accepted;
    SizesNoMore(0, hclen, seq(19, _ => 0), i);
    var sizes := ExactSizes(0, hclen, seq(19, _ => 0), i);
    LengthsNoMore(sizes.0, hlit + hdist, [], sizes.1);
  }

  /** Bits that are all zero hold bytes that are all zero. */
  lemma {:induction false} ZeroBytes(b: Bits)
    requires FromBits(b) == 0
    ensures forall k :: 0 <= k < |BytesOf(b)| ==> BytesOf(b)[k] == 0
    decreases |b|
  {
    if |b| >= 8 {
      hide FromBits;
      FromBitsConcat(b[..8], b[8..]);
      assert b[..8] + b[8..] == b;
      MulMonotone(1, Pow2(8), FromBits(b[8..]));
      ZeroBytes(b[8..]);
    }
  }

  /** A stored block that is accepted uses up a byte ahead, or bits that are not all zero. */
  lemma StoredLess(i: Input, out: seq<Byte>, limit: nat)
    requires |i.held| < 32 && |out| <= limit && ExactStored(i, out, limit).Ok?
    ensures Less(i, ExactStored(i, out, limit).input)
  {
    hide FromBits, BytesOf;
    var b := i.held[|i.held| % 8..];
    assert |BytesOf(b)| <= 3;
    assert FromBits([]) == 0 by {
      FromZeros(0);
      assert Zeros(0) == [];
    }
    DropNoMore(|i.held| % 8, i);
    if FromBits(b) == 0 {
      ZeroBytes(b);
    }
  }

  /** With its header, every block that is accepted uses something up. */
  lemma OneLess(i: Input, out: seq<Byte>, limit: nat)
    requires |i.held| <= 32 && |out| <= limit
    ensures var b := Receive(2, Receive(1, i).1);
      ExactOne(b.0, b.1, out, limit).Ok? ==> Less(i, ExactOne(b.0, b.1, out, limit).input)
  {
    hide FromBits, Receive, ExactStored, ExactBlock, ExactCodes, FixedLengths, FixedDistances;
    var f := Receive(1, i);
    var b := Receive(2, f.1);
    ReceiveNoMore(1, i);
    ReceiveNoMore(2, f.1);
    if ExactOne(b.0, b.1, out, limit).Ok? {
      if b.0 == 0 {
        StoredLess(b.1, out, limit);
      } else if b.0 == 1 {
        BlockNoMore(FixedLengths(), FixedDistances(), b.1, out, limit);
      } else {
        CodesNoMore(b.1);
        var codes := ExactCodes(b.1);
        BlockNoMore(codes.value.lit, codes.value.dist, codes.input, out, limit);
      }
    }
  }
}
