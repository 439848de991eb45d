// What a DEFLATE stream means (RFC 1951, sections 3.2.3 to 3.2.6), as a function of its bits. The inflater is
// proved to compute it as long as 32 bits are left at every read, which a zlib trailer guarantees.
module InflateSpec {
  import opened Sequences
  import opened BitOps
  import opened BitStream
  import opened Options
  import opened BitOutput
  import opened CanonicalCode
  import opened DeflateFormat

  /** Short: fewer than 32 bits were left at some read; what the inflater then does is not specified here. */
  datatype Inflated = Done(out: seq<Byte>, rest: Bits) | Corrupt | Short

  /** Base value plus extra bits. */
  datatype Extra = Extra(value: nat, rest: Bits) | ShortExtra

  function ReadExtra(base: nat, extra: nat, bits: Bits): (r: Extra)
    requires extra <= 16
    ensures r.Extra? ==> r.value >= base && |r.rest| <= |bits|
  {
    if extra == 0 then Extra(base, bits)
    else if |bits| < 32 then ShortExtra
    else Extra(base + FromBits(bits[..extra]), bits[extra..])
  }

  /** The next thing in a block of compressed data. */
  datatype Item =
    | OneByte(byte: Byte, rest: Bits)
    | Copy(length: nat, distance: nat, rest: Bits)
    | EndOfBlock(rest: Bits)
    | WrongItem
    | ShortItem

  ghost function ReadDistance(dist: Lengths, length: nat, bits: Bits): (r: Item)
    ensures r.WrongItem? || r.ShortItem? || (r.Copy? && r.length == length && r.distance >= 1 && |r.rest| <= |bits|)
  {
    hide ToBits, FromBits, Begins;
    if |bits| < 32 then ShortItem
    else
      match Symbol(dist, bits)
      case None => WrongItem
      case Some(k) =>
        SymbolFits(dist, k, bits);
        if k >= 30 then WrongItem
        else
          match ReadExtra(DIST_BASE[k], DIST_EXTRA[k], bits[dist[k]..])
          case ShortExtra => ShortItem
          case Extra(distance, rest) => Copy(length, distance, rest)
  }

  ghost function ReadItem(lit: Lengths, dist: Lengths, bits: Bits): (r: Item)
    ensures r.Copy? ==> r.distance >= 1
    ensures r.OneByte? || r.Copy? || r.EndOfBlock? ==> |r.rest| < |bits|
  {
    hide ToBits, FromBits, Begins;
    if |bits| < 32 then ShortItem
    else
      match Symbol(lit, bits)
      case None => WrongItem
      case Some(z) =>
        SymbolFits(lit, z, bits);
        var rest := bits[lit[z]..];
        if z < 256 then OneByte(z, rest)
        else if z == 256 then EndOfBlock(rest)
        else if z >= 286 then WrongItem
        else
          match ReadExtra(LENGTH_BASE[z - 257], LENGTH_EXTRA[z - 257], rest)
          case ShortExtra => ShortItem
          case Extra(length, rest') => ReadDistance(dist, length, rest')
  }

  lemma SymbolFits(lens: Lengths, i: nat, bits: Bits)
    requires i < |lens| && Begins(lens, i, bits)
    ensures 0 < lens[i] <= |bits|
  {
  }

  /** One block of compressed data. */
  ghost function InflateBlock(lit: Lengths, dist: Lengths, bits: Bits, out: seq<Byte>): (r: Inflated)
    ensures r.Done? ==> |r.rest| < |bits| && |r.out| >= |out|
    decreases |bits|
  {
    match ReadItem(lit, dist, bits)
    case OneByte(byte, rest) => InflateBlock(lit, dist, rest, out + [byte])
    case EndOfBlock(rest) => Done(out, rest)
    case Copy(length, distance, rest) =>
      if distance > |out| then Corrupt else InflateBlock(lit, dist, rest, CopyMatch(out, length, distance))
    case WrongItem => Corrupt
    case ShortItem => Short
  }

  // ----- what was encoded is decoded

  lemma CodeThen(lens: Lengths, i: nat, rest: Bits)
    requires Accepted(lens) && i < |lens| && lens[i] > 0
    ensures Symbol(lens, CodeBits(lens, i) + rest) == Some(i)
    ensures (CodeBits(lens, i) + rest)[lens[i]..] == rest
  {
    hide Symbol, Accepted, MsbBits, CodeOf;
    SymbolIs(lens, i, CodeBits(lens, i) + rest);
  }

  lemma ExtraThen(base: nat, extra: nat, v: nat, rest: Bits)
    requires extra <= 16 && v < Pow2(extra) && |rest| >= 32
    ensures ReadExtra(base, extra, ToBits(v, extra) + rest) == Extra(base + v, rest)
  {
    hide ToBits, FromBits;
    FromToBits(v, extra);
    var bits := ToBits(v, extra) + rest;
    assert bits[..extra] == ToBits(v, extra) && bits[extra..] == rest;
    if extra == 0 {
      assert bits == rest;
    }
  }

  lemma DistanceThen(length: nat, distance: nat, rest: Bits)
    requires 1 <= distance <= 32767 && |rest| >= 32
    ensures var k := DistanceIndex(distance);
      ReadDistance(FixedDistances(), length,
                   CodeBits(FixedDistances(), k) + (ToBits(distance - DIST_BASE[k], DIST_EXTRA[k]) + rest))
      == Copy(length, distance, rest)
  {
    hide ToBits, CodeBits, Symbol, FixedDistances, CodeOf, Accepted, ReadExtra, Pow2;
    var k := DistanceIndex(distance);
    DistanceCode(k);
    var tail := ToBits(distance - DIST_BASE[k], DIST_EXTRA[k]) + rest;
    CodeThen(FixedDistances(), k, tail);
    ExtraThen(DIST_BASE[k], DIST_EXTRA[k], distance - DIST_BASE[k], rest);
  }

  lemma FixedThen(z: nat, rest: Bits)
    requires z < 288
    ensures Symbol(FixedLengths(), FixedBits(z) + rest) == Some(z)
    ensures (FixedBits(z) + rest)[FixedLengths()[z]..] == rest
  {
    hide CodeBits, Symbol, FixedLengths, CodeOf, Accepted;
    FixedCode(z);
    FixedFirst();
    CodeThen(FixedLengths(), z, rest);
  }

  lemma TokenThen(t: Token, rest: Bits)
    requires Encodable(t) && |rest| >= 32
    ensures ReadItem(FixedLengths(), FixedDistances(), EncodeToken(t) + rest) ==
            match t
            case Literal(byte) => OneByte(byte, rest)
            case Match(length, distance) => Copy(length, distance, rest)
  {
    match t
    case Literal(byte) =>
      hide FixedLengths, FixedDistances, Symbol, FixedBits;
      FixedThen(byte, rest);
    case Match(length, distance) =>
      MatchThen(length, distance, rest);
  }

  lemma MatchThen(length: nat, distance: nat, rest: Bits)
    requires 3 <= length <= 258 && 1 <= distance <= 32767 && |rest| >= 32
    ensures ReadItem(FixedLengths(), FixedDistances(), EncodeToken(Match(length, distance)) + rest) ==
            Copy(length, distance, rest)
  {
    hide FixedLengths, FixedDistances, FixedBits, ToBits, ReadItem, ReadDistance, CodeBits, Pow2, EncodeToken, CodeOf;
    hide LENGTH_BASE, LENGTH_EXTRA, DIST_BASE, DIST_EXTRA;
    TableSizes();
    var j, k := LengthIndex(length), DistanceIndex(distance);
    MatchEncoded(length, distance, rest);
    DistanceThen(length, distance, rest);
    DistanceCode(k);
    LengthThen(j, length - LENGTH_BASE[j],
               CodeBits(FixedDistances(), k) + (ToBits(distance - DIST_BASE[k], DIST_EXTRA[k]) + rest));
  }

  lemma LengthThen(j: nat, v: nat, rest: Bits)
    requires j <= 28 && v < Pow2(LENGTH_EXTRA[j]) && |rest| >= 32
    ensures ReadItem(FixedLengths(), FixedDistances(), FixedBits(j + 257) + (ToBits(v, LENGTH_EXTRA[j]) + rest)) ==
            ReadDistance(FixedDistances(), LENGTH_BASE[j] + v, rest)
  {
    hide FixedLengths, FixedDistances, Symbol, FixedBits, ToBits, ReadExtra, ReadDistance, ReadItem, Pow2, CodeOf;
    hide LENGTH_BASE, LENGTH_EXTRA;
    TableSizes();
    var next := ToBits(v, LENGTH_EXTRA[j]) + rest;
    FixedThen(j + 257, next);
    FixedCode(j + 257);
    ExtraThen(LENGTH_BASE[j], LENGTH_EXTRA[j], v, rest);
    ItemOfLength(FixedLengths(), FixedDistances(), FixedBits(j + 257) + next, j, LENGTH_BASE[j] + v, rest);
  }

  lemma TableSizes()
    ensures |LENGTH_BASE| == |LENGTH_EXTRA| == 31 && |DIST_BASE| == 32 && |DIST_EXTRA| == 30
    ensures forall j :: 0 <= j < 31 ==> LENGTH_EXTRA[j] <= 16
    ensures forall j :: 0 <= j < 29 ==> LENGTH_BASE[j] >= 3
    ensures forall j :: 0 <= j < 30 ==> DIST_BASE[j] >= 1
    ensures forall j :: 0 <= j < 30 ==> DIST_EXTRA[j] <= 16
  {
  }

  lemma ItemOfLength(lit: Lengths, dist: Lengths, bits: Bits, j: nat, length: nat, rest: Bits)
    requires j <= 28 && |bits| >= 32 && Symbol(lit, bits) == Some(j + 257)
    requires lit[j + 257] <= |bits|
    requires ReadExtra(LENGTH_BASE[j], LENGTH_EXTRA[j], bits[lit[j + 257]..]) == Extra(length, rest)
    ensures ReadItem(lit, dist, bits) == ReadDistance(dist, length, rest)
  {
    hide ReadExtra, ReadDistance, Symbol;
  }

  lemma MatchEncoded(length: nat, distance: nat, rest: Bits)
    requires 3 <= length <= 258 && 1 <= distance <= 32767
    ensures var j, k := LengthIndex(length), DistanceIndex(distance);
      EncodeToken(Match(length, distance)) + rest ==
      FixedBits(j + 257) + (ToBits(length - LENGTH_BASE[j], LENGTH_EXTRA[j]) +
                            (CodeBits(FixedDistances(), k) +
                             (ToBits(distance - DIST_BASE[k], DIST_EXTRA[k]) + rest)))
  {
    hide FixedBits, ToBits, CodeBits, Pow2, LengthIndex, DistanceIndex;
    var j, k := LengthIndex(length), DistanceIndex(distance);
    Regroup5(FixedBits(j + 257), ToBits(length - LENGTH_BASE[j], LENGTH_EXTRA[j]),
             CodeBits(FixedDistances(), k), ToBits(distance - DIST_BASE[k], DIST_EXTRA[k]), rest);
  }

  lemma EndThen(rest: Bits)
    requires |rest| >= 32
    ensures ReadItem(FixedLengths(), FixedDistances(), FixedBits(256) + rest) == EndOfBlock(rest)
  {
    hide FixedLengths, FixedDistances, Symbol, FixedBits;
    FixedThen(256, rest);
  }

  function EncodeTokens(tokens: seq<Token>): Bits
    requires forall i :: 0 <= i < |tokens| ==> Encodable(tokens[i])
  {
    if |tokens| == 0 then [] else EncodeToken(tokens[0]) + EncodeTokens(tokens[1..])
  }

  predicate ValidTokens(tokens: seq<Token>, out: seq<Byte>) {
    |tokens| > 0 ==> ValidToken(tokens[0], |out|) && ValidTokens(tokens[1..], Expand(out, tokens[0]))
  }

  function ExpandAll(out: seq<Byte>, tokens: seq<Token>): seq<Byte>
    requires ValidTokens(tokens, out)
    decreases |tokens|
  {
    if |tokens| == 0 then out else ExpandAll(Expand(out, tokens[0]), tokens[1..])
  }

  /** Decoding a block of encoded tokens expands them. */
  lemma {:induction false} BlockThen(tokens: seq<Token>, rest: Bits, out: seq<Byte>)
    requires ValidTokens(tokens, out) && |rest| >= 32
    requires forall i :: 0 <= i < |tokens| ==> Encodable(tokens[i])
    ensures InflateBlock(FixedLengths(), FixedDistances(), EncodeTokens(tokens) + (FixedBits(256) + rest), out) ==
            Done(ExpandAll(out, tokens), rest)
    decreases |tokens|
  {
    hide FixedLengths, FixedDistances, FixedBits, ReadItem, EncodeToken;
    var end := FixedBits(256) + rest;
    if |tokens| == 0 {
      assert EncodeTokens(tokens) + end == end;
      EndThen(rest);
    } else {
      BlockThen(tokens[1..], rest, Expand(out, tokens[0]));
      var tail := EncodeTokens(tokens[1..]) + end;
      assert EncodeTokens(tokens) + end == EncodeToken(tokens[0]) + tail;
      TokenThen(tokens[0], tail);
    }
  }
}
