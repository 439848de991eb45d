// A block with dynamic codes, written as sections 3.2.5 to 3.2.7 of RFC 1951 describe it with any two codes, and read
// back by the inflater (stb/stb_image.h:4295-4386 and 4460-4486).
module DynamicBlock {
  import opened Sequences
  import opened BitOps
  import opened BitStream
  import opened Options
  import opened CanonicalCode
  import opened DeflateFormat
  import opened InflateSpec
  import opened InflateStreamSpec
  import opened InflateInput
  import opened InflateExact
  import opened InflateAgrees
  import opened DynamicHeader

  /** A byte, or a match as its symbols and extra bits: length symbol 257 + k with v, distance symbol m with u. */
  datatype Coded = Lit(byte: Byte) | Copied(k: nat, v: nat, m: nat, u: nat)

  /** All symbols have a code, the extra bits fit, and a match lies in what has been produced. */
  predicate ValidCoded(c: Coded, lit: Lengths, dist: Lengths, produced: nat) {
    match c
    case Lit(byte) => byte < |lit| && lit[byte] > 0
    case Copied(k, v, m, u) =>
      && k <= 28 && 257 + k < |lit| && lit[257 + k] > 0 && v < Pow2(LENGTH_EXTRA[k])
      && m <= 29 && m < |dist| && dist[m] > 0 && u < Pow2(DIST_EXTRA[m])
      && 1 <= DIST_BASE[m] + u <= produced
  }

  function CodedBits(c: Coded, lit: Lengths, dist: Lengths, produced: nat): Bits
    requires ValidCoded(c, lit, dist, produced)
  {
    match c
    case Lit(byte) => CodeBits(lit, byte)
    case Copied(k, v, m, u) =>
      CodeBits(lit, 257 + k)
      + (ToBits(v, LENGTH_EXTRA[k]) + (CodeBits(dist, m) + ToBits(u, DIST_EXTRA[m])))
  }

  function Produced(c: Coded, lit: Lengths, dist: Lengths, out: seq<Byte>): (r: seq<Byte>)
    requires ValidCoded(c, lit, dist, |out|)
    ensures |r| >= |out|
  {
    match c
    case Lit(byte) => out + [byte]
    case Copied(k, v, m, u) => CopyMatch(out, LENGTH_BASE[k] + v, DIST_BASE[m] + u)
  }

  ghost predicate ValidBlock(cs: seq<Coded>, lit: Lengths, dist: Lengths, out: seq<Byte>)
    decreases |cs|
  {
    |cs| == 0 ||
    (ValidCoded(cs[0], lit, dist, |out|) && ValidBlock(cs[1..], lit, dist, Produced(cs[0], lit, dist, out)))
  }

  ghost function BlockBits(cs: seq<Coded>, lit: Lengths, dist: Lengths, out: seq<Byte>): Bits
    requires ValidBlock(cs, lit, dist, out)
    decreases |cs|
  {
    if |cs| == 0 then []
    else
      CodedBits(cs[0], lit, dist, |out|) + BlockBits(cs[1..], lit, dist, Produced(cs[0], lit, dist, out))
  }

  ghost function AllProduced(cs: seq<Coded>, lit: Lengths, dist: Lengths, out: seq<Byte>): (r: seq<Byte>)
    requires ValidBlock(cs, lit, dist, out)
    ensures |r| >= |out|
    decreases |cs|
  {
    if |cs| == 0 then out else AllProduced(cs[1..], lit, dist, Produced(cs[0], lit, dist, out))
  }

  /** One symbol of a code in front of anything. */
  lemma ByteThen(lit: Lengths, dist: Lengths, byte: nat, rest: Bits)
    requires Accepted(lit) && byte <= 256 && byte < |lit| && lit[byte] > 0 && |rest| >= 32
    ensures ReadItem(lit, dist, CodeBits(lit, byte) + rest) ==
            if byte < 256 then OneByte(byte, rest) else EndOfBlock(rest)
  {
    hide CodeBits, Symbol, Accepted, CodeOf;
    CodeThen(lit, byte, rest);
  }

  lemma DistanceCodeThen(dist: Lengths, length: nat, m: nat, u: nat, rest: Bits)
    requires Accepted(dist) && m <= 29 && m < |dist| && dist[m] > 0 && u < Pow2(DIST_EXTRA[m]) && |rest| >= 32
    ensures ReadDistance(dist, length, CodeBits(dist, m) + (ToBits(u, DIST_EXTRA[m]) + rest)) ==
            Copy(length, DIST_BASE[m] + u, rest)
  {
    hide ToBits, CodeBits, Symbol, CodeOf, Accepted, ReadExtra, Pow2, DIST_BASE, DIST_EXTRA;
    TableSizes();
    CodeThen(dist, m, ToBits(u, DIST_EXTRA[m]) + rest);
    ExtraThen(DIST_BASE[m], DIST_EXTRA[m], u, rest);
  }

  lemma LengthCodeThen(lit: Lengths, dist: Lengths, k: nat, v: nat, rest: Bits)
    requires Accepted(lit) && k <= 28 && 257 + k < |lit| && lit[257 + k] > 0
    requires v < Pow2(LENGTH_EXTRA[k]) && |rest| >= 32
    ensures ReadItem(lit, dist, CodeBits(lit, 257 + k) + (ToBits(v, LENGTH_EXTRA[k]) + rest)) ==
            ReadDistance(dist, LENGTH_BASE[k] + v, rest)
  {
    hide Symbol, ToBits, CodeBits, ReadExtra, ReadDistance, ReadItem, Pow2, CodeOf, Accepted, LENGTH_BASE, LENGTH_EXTRA;
    TableSizes();
    var next := ToBits(v, LENGTH_EXTRA[k]) + rest;
    CodeThen(lit, 257 + k, next);
    CodeSize(lit, 257 + k);
    ExtraThen(LENGTH_BASE[k], LENGTH_EXTRA[k], v, rest);
    ItemOfLength(lit, dist, CodeBits(lit, 257 + k) + next, k, LENGTH_BASE[k] + v, rest);
  }

  lemma CodeSize(lens: Lengths, i: nat)
    requires i < |lens|
    ensures |CodeBits(lens, i)| == lens[i]
  {
  }

  lemma CodedThen(c: Coded, lit: Lengths, dist: Lengths, produced: nat, rest: Bits)
    requires Accepted(lit) && Accepted(dist) && ValidCoded(c, lit, dist, produced) && |rest| >= 32
    ensures ReadItem(lit, dist, CodedBits(c, lit, dist, produced) + rest) ==
            match c
            case Lit(byte) => OneByte(byte, rest)
            case Copied(k, v, m, u) => Copy(LENGTH_BASE[k] + v, DIST_BASE[m] + u, rest)
  {
    hide ToBits, CodeBits, Accepted, ReadItem, ReadDistance, Pow2, LENGTH_BASE, LENGTH_EXTRA, DIST_BASE, DIST_EXTRA;
    TableSizes();
    match c
    case Lit(byte) =>
      ByteThen(lit, dist, byte, rest);
    case Copied(k, v, m, u) =>
      var distance := CodeBits(dist, m) + (ToBits(u, DIST_EXTRA[m]) + rest);
      CopiedParts(CodeBits(lit, 257 + k), ToBits(v, LENGTH_EXTRA[k]), CodeBits(dist, m), ToBits(u, DIST_EXTRA[m]),
                  rest);
      LengthCodeThen(lit, dist, k, v, distance);
      DistanceCodeThen(dist, LENGTH_BASE[k] + v, m, u, rest);
  }

  lemma CopiedParts(a: Bits, b: Bits, c: Bits, d: Bits, rest: Bits)
    ensures (a + (b + (c + d))) + rest == a + (b + (c + (d + rest)))
  {
  }

  /** A block in any two codes, with its end in front of anything, inflates to what it stands for. */
  lemma {:induction false} CodedBlockThen(cs: seq<Coded>, lit: Lengths, dist: Lengths, out: seq<Byte>, rest: Bits)
    requires Accepted(lit) && Accepted(dist) && ValidBlock(cs, lit, dist, out) && |rest| >= 32
    requires 256 < |lit| && lit[256] > 0
    ensures InflateBlock(lit, dist, BlockBits(cs, lit, dist, out) + (CodeBits(lit, 256) + rest), out) ==
            Done(AllProduced(cs, lit, dist, out), rest)
    decreases |cs|
  {
    hide CodeBits, Accepted, ReadItem, ValidCoded, CodedBits, LENGTH_BASE, DIST_BASE;
    var end := CodeBits(lit, 256) + rest;
    if |cs| == 0 {
      assert BlockBits(cs, lit, dist, out) + end == end;
      ByteThen(lit, dist, 256, rest);
    } else {
      var next := Produced(cs[0], lit, dist, out);
      var tail := BlockBits(cs[1..], lit, dist, next) + end;
      CodedBlockThen(cs[1..], lit, dist, next, rest);
      assert BlockBits(cs, lit, dist, out) + end == CodedBits(cs[0], lit, dist, |out|) + tail;
      CodedThen(cs[0], lit, dist, |out|, tail);
      DistanceInside(cs[0], lit, dist, |out|);
    }
  }

  lemma DistanceInside(c: Coded, lit: Lengths, dist: Lengths, produced: nat)
    requires ValidCoded(c, lit, dist, produced)
    ensures c.Copied? ==> c.k <= 28 && c.m <= 29 && 1 <= DIST_BASE[c.m] + c.u <= produced
  {
  }

  // ----- a final dynamic block as a stream

  /** The three bits in front: final, and type 2. */
  function DynamicHead(): Bits {
    [true] + ToBits(2, 2)
  }

  ghost predicate ValidDynamic(t: Tables, cs: seq<Coded>) {
    ValidTables(t) && ValidBlock(cs, t.lit, t.dist, []) && t.lit[256] > 0
  }

  ghost function DynamicBits(t: Tables, cs: seq<Coded>): Bits
    requires ValidDynamic(t, cs)
  {
    DynamicHead() + (HeaderBits(t) + (BlockBits(cs, t.lit, t.dist, []) + CodeBits(t.lit, 256)))
  }

  /** Any final dynamic block in front of anything is a stream that stands for what the block produces. */
  lemma DynamicThen(t: Tables, cs: seq<Coded>, rest: Bits)
    requires ValidDynamic(t, cs) && |rest| >= 37
    ensures InflateStream(DynamicBits(t, cs) + rest, []) == Done(AllProduced(cs, t.lit, t.dist, []), rest)
  {
    hide CodeBits, Accepted, HeaderBits, BlockBits, AllProduced, ValidBlock, InflateBlock, ReadCodes, DynamicHead,
      ValidTables;
    TablesAccepted(t);
    var block, end := BlockBits(cs, t.lit, t.dist, []), CodeBits(t.lit, 256);
    CopiedParts(DynamicHead(), HeaderBits(t), block, end, rest);
    var tail := block + (end + rest);
    HeaderThen(t, tail);
    CodedBlockThen(cs, t.lit, t.dist, [], rest);
    DynamicHeadOf(HeaderBits(t) + tail);
  }

  lemma TablesAccepted(t: Tables)
    requires ValidTables(t)
    ensures Accepted(t.lit) && Accepted(t.dist) && |t.lit| >= 257
  {
    hide Accepted;
  }

  lemma DynamicHeadOf(rest: Bits)
    ensures var bits := DynamicHead() + rest;
      |bits| == 3 + |rest| && bits[0] && FromBits(bits[1..3]) == 2 && bits[3..] == rest
  {
    hide ToBits;
    SmallPowers();
    FromToBits(2, 2);
    var bits := DynamicHead() + rest;
    assert bits[1..3] == ToBits(2, 2);
  }

  /** And the inflater inflates it, if the output has room. */
  lemma DynamicInflates(t: Tables, cs: seq<Coded>, rest: Bits, i: Input, limit: nat)
    requires ValidDynamic(t, cs) && |rest| >= 37 && |i.held| < 32 && AllBits(i) == DynamicBits(t, cs) + rest
    ensures var r, out := ExactStream(i, [], limit), AllProduced(cs, t.lit, t.dist, []);
      if |out| <= limit then r.Ok? && r.value == out && AllBits(r.input) == rest else r.Err?
  {
    hide ValidDynamic, DynamicBits, AllBits, InflateStream, ExactStream, AllProduced;
    DynamicThen(t, cs, rest);
    StreamAgrees(i, [], limit);
  }
}
