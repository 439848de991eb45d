// The meaning of stored blocks, dynamic codes and whole streams (RFC 1951, sections 3.2.3, 3.2.4 and 3.2.7).
module InflateStreamSpec {
  import opened BitOps
  import opened BitStream
  import opened Options
  import opened BitOutput
  import opened CanonicalCode
  import opened DeflateFormat
  import opened InflateSpec

  // ----- stored blocks

  /** The bytes a bit string holds. */
  function BytesOf(b: Bits): (s: seq<Byte>)
    ensures |s| == |b| / 8
  {
    if |b| < 8 then [] else [ByteOf(b[..8])] + BytesOf(b[8..])
  }

  function ByteOf(b: Bits): Byte
    requires |b| == 8
  {
    FromBitsBound(b);
    SmallPowers();
    FromBits(b)
  }

  lemma {:induction false} BytesOfBits(s: seq<Byte>)
    ensures BytesOf(BytesBits(s)) == s
  {
    if |s| > 0 {
      hide ToBits, FromBits;
      ByteSplits(s);
      FromToBits(s[0], 8);
      BytesOfBits(s[1..]);
      assert s == [s[0]] + s[1..];
    }
  }

  /** A stored block from its byte boundary: LEN, its complement, and LEN bytes. */
  function InflateAligned(b: Bits, out: seq<Byte>): (r: Inflated)
    ensures r.Done? ==> |r.rest| < |b| && |r.out| >= |out|
  {
    if |b| < 32 then Short
    else
      var len := FromBits(b[..16]);
      if FromBits(b[16..32]) != 65535 - len then Corrupt
      else if |b| < 32 + 8 * len then Corrupt
      else Done(out + BytesOf(b[32..32 + 8 * len]), b[32 + 8 * len..])
  }

  /** The bits up to the next byte boundary are skipped. */
  function InflateStored(bits: Bits, out: seq<Byte>): (r: Inflated)
    ensures r.Done? ==> |r.rest| < |bits| && |r.out| >= |out|
  {
    InflateAligned(bits[|bits| % 8..], out)
  }

  // ----- dynamic codes

  datatype Read<T> = Got(value: T, rest: Bits) | Failed | Ran

  function ReadBits(n: nat, bits: Bits): (r: Read<nat>)
    requires n <= 16
    ensures r.Got? ==> |r.rest| == |bits| - n && r.value < Pow2(n)
    ensures !r.Failed?
  {
    if |bits| < 32 then Ran
    else
      FromBitsBound(bits[..n]);
      Got(FromBits(bits[..n]), bits[n..])
  }

  const LENGTH_DEZIGZAG: seq<nat> := [16, 17, 18, 0, 8, 7, 9, 6, 10, 5, 11, 4, 12, 3, 13, 2, 14, 1, 15]

  lemma DezigzagRange()
    ensures |LENGTH_DEZIGZAG| == 19 && forall i :: 0 <= i < 19 ==> LENGTH_DEZIGZAG[i] < 19
  {
  }

  /** The lengths of the code length code, three bits each, in their fixed order. */
  function ReadSizes(i: nat, hclen: nat, sizes: Lengths, bits: Bits): (r: Read<Lengths>)
    requires i <= hclen <= 19 && |sizes| == 19
    ensures !r.Failed? && (r.Got? ==> |r.value| == 19 && |r.rest| <= |bits|)
    decreases hclen - i
  {
    if i == hclen then Got(sizes, bits)
    else
      match ReadBits(3, bits)
      case Got(s, rest) =>
        SmallPowers();
        DezigzagRange();
        ThreeBits(s);
        ReadSizes(i + 1, hclen, sizes[LENGTH_DEZIGZAG[i] := s], rest)
      case Failed => Failed
      case Ran => Ran
  }

  lemma ThreeBits(s: nat)
    requires s < Pow2(3)
    ensures s < 8
  {
    SmallPowers();
  }

  /** A run of one length, if it does not overrun. */
  function AddRun(lens: Lengths, total: nat, count: nat, fill: nat): (r: Lengths)
    requires |lens| + count <= total && fill < 16
    ensures |r| == |lens| + count && lens <= r
  {
    lens + seq(count, _ => fill)
  }

  /** How a run symbol is followed: so many bits, and so much added to them. */
  function RunBits(c: nat): (n: nat)
    ensures n <= 7
  {
    if c == 16 then 2 else if c == 17 then 3 else 7
  }

  function RunBase(c: nat): nat {
    if c == 18 then 11 else 3
  }

  /** The code lengths of both alphabets, run-length coded. */
  ghost function ReadLengths(code: Lengths, total: nat, lens: Lengths, bits: Bits): (r: Read<Lengths>)
    requires |lens| <= total && |code| == 19
    ensures r.Got? ==> |r.value| == total && |r.rest| <= |bits|
    decreases |bits|
  {
    hide ToBits, FromBits, Begins;
    if |lens| == total then Got(lens, bits)
    else if |bits| < 32 then Ran
    else
      match Symbol(code, bits)
      case None => Failed
      case Some(c) =>
        SymbolFits(code, c, bits);
        var rest := bits[code[c]..];
        if c < 16 then ReadLengths(code, total, lens + [c], rest)
        else
          match ReadBits(RunBits(c), rest)
          case Got(k, rest') =>
            var count := k + RunBase(c);
            if c == 16 && |lens| == 0 then Failed
            else if total - |lens| < count then Failed
            else
              var fill := if c == 16 then lens[|lens| - 1] else 0;
              ReadLengths(code, total, AddRun(lens, total, count, fill), rest')
          case Failed => Failed
          case Ran => Ran
  }

  datatype Codes = Codes(lit: Lengths, dist: Lengths)

  ghost function ReadTables(hlit: nat, hdist: nat, hclen: nat, bits: Bits): (r: Read<Codes>)
    requires hclen <= 19
    ensures r.Got? ==> |r.rest| <= |bits| && |r.value.lit| == hlit && |r.value.dist| == hdist
                       && Accepted(r.value.lit) && Accepted(r.value.dist)
  {
    match ReadSizes(0, hclen, seq(19, _ => 0), bits)
    case Failed => Failed
    case Ran => Ran
    case Got(sizes, rest) =>
      if !Accepted(sizes) then Failed
      else
        match ReadLengths(sizes, hlit + hdist, [], rest)
        case Failed => Failed
        case Ran => Ran
        case Got(lens, rest') =>
          if Accepted(lens[..hlit]) && Accepted(lens[hlit..]) then Got(Codes(lens[..hlit], lens[hlit..]), rest')
          else Failed
  }

  ghost function ReadCodes(bits: Bits): (r: Read<Codes>)
    ensures r.Got? ==> |r.rest| <= |bits|
  {
    match ReadBits(5, bits)
    case Failed => Failed
    case Ran => Ran
    case Got(hlit, rest) =>
      match ReadBits(5, rest)
      case Failed => Failed
      case Ran => Ran
      case Got(hdist, rest1) =>
        match ReadBits(4, rest1)
        case Failed => Failed
        case Ran => Ran
        case Got(hclen, rest2) =>
          FourBits(hclen);
          ReadTables(hlit + 257, hdist + 1, hclen + 4, rest2)
  }

  lemma FourBits(s: nat)
    requires s < Pow2(4)
    ensures s < 16
  {
    SmallPowers();
  }

  // ----- streams

  ghost function InflateOne(blockType: nat, bits: Bits, out: seq<Byte>): (r: Inflated)
    ensures r.Done? ==> |r.rest| < |bits| && |r.out| >= |out|
  {
    if blockType == 0 then InflateStored(bits, out)
    else if blockType == 1 then InflateBlock(FixedLengths(), FixedDistances(), bits, out)
    else if blockType == 2 then
      match ReadCodes(bits)
      case Got(codes, rest) => InflateBlock(codes.lit, codes.dist, rest, out)
      case Failed => Corrupt
      case Ran => Short
    else Corrupt
  }

  /** Blocks up to the one marked final. */
  ghost function InflateStream(bits: Bits, out: seq<Byte>): (r: Inflated)
    ensures r.Done? ==> |r.out| >= |out|
    decreases |bits|
  {
    if |bits| < 40 then Short
    else
      var r := InflateOne(FromBits(bits[1..3]), bits[3..], out);
      if r.Done? && !bits[0] then InflateStream(r.rest, r.out) else r
  }
}
