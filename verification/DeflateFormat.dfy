// The DEFLATE format (RFC 1951, sections 3.2.4 to 3.2.6): the specification that compressor and inflater share.
module DeflateFormat {
  import opened BitOps
  import opened BitStream
  import opened BitOutput
  import opened CanonicalCode

  // ----- tokens

  datatype Token = Literal(byte: Byte) | Match(length: nat, distance: nat)

  predicate ValidToken(t: Token, produced: nat) {
    match t
    case Literal(_) => true
    case Match(length, distance) => 3 <= length <= 258 && 1 <= distance <= 32767 && distance <= produced
  }

  /** A match repeats what was produced `distance` bytes ago, byte by byte, so that it may overlap itself. */
  function CopyMatch(out: seq<Byte>, length: nat, distance: nat): (r: seq<Byte>)
    requires 1 <= distance <= |out|
    ensures |r| == |out| + length
    decreases length
  {
    if length == 0 then out else CopyMatch(out + [out[|out| - distance]], length - 1, distance)
  }

  function Expand(out: seq<Byte>, t: Token): seq<Byte>
    requires ValidToken(t, |out|)
  {
    match t
    case Literal(byte) => out + [byte]
    case Match(length, distance) => CopyMatch(out, length, distance)
  }

  /** A match found in the data reproduces the data. */
  lemma {:induction false} CopyMatchIs(data: seq<Byte>, i: nat, length: nat, distance: nat)
    requires 1 <= distance <= i && i + length <= |data|
    requires data[i - distance..i - distance + length] == data[i..i + length]
    ensures CopyMatch(data[..i], length, distance) == data[..i + length]
    decreases length
  {
    if length > 0 {
      var p := i - distance;
      assert data[p..p + length][0] == data[i..i + length][0];
      assert data[..i] + [data[i]] == data[..i + 1];
      assert data[p..p + length][1..] == data[p + 1..p + length];
      assert data[i..i + length][1..] == data[i + 1..i + length];
      CopyMatchIs(data, i + 1, length - 1, distance);
    }
  }

  // ----- length and distance symbols

  const LENGTH_BASE: seq<nat> :=
    [3, 4, 5, 6, 7, 8, 9, 10, 11, 13, 15, 17, 19, 23, 27, 31, 35, 43, 51, 59, 67, 83, 99, 115, 131, 163, 195, 227, 258,
     0, 0]
  const LENGTH_EXTRA: seq<nat> :=
    [0, 0, 0, 0, 0, 0, 0, 0, 1, 1, 1, 1, 2, 2, 2, 2, 3, 3, 3, 3, 4, 4, 4, 4, 5, 5, 5, 5, 0, 0, 0]
  const DIST_BASE: seq<nat> :=
    [1, 2, 3, 4, 5, 7, 9, 13, 17, 25, 33, 49, 65, 97, 129, 193, 257, 385, 513, 769, 1025, 1537, 2049, 3073, 4097, 6145,
     8193, 12289, 16385, 24577, 0, 0]
  const DIST_EXTRA: seq<nat> :=
    [0, 0, 0, 0, 1, 1, 2, 2, 3, 3, 4, 4, 5, 5, 6, 6, 7, 7, 8, 8, 9, 9, 10, 10, 11, 11, 12, 12, 13, 13]

  /** The table of section 3.2.5 of RFC 1951 by rule: four symbols for each number of extra bits, 258 on its own. */
  lemma LengthTable(k: nat)
    requires k <= 28
    ensures |LENGTH_BASE| == |LENGTH_EXTRA| == 31
    ensures LENGTH_EXTRA[k] == if k < 8 || k == 28 then 0 else (k - 4) / 4
    ensures LENGTH_BASE[k] == if k < 8 then 3 + k else if k == 28 then 258 else 3 + (4 + k % 4) * Pow2((k - 4) / 4)
  {
    SmallPowers();
    hide Pow2;
    if k < 8 {
    } else if k < 16 {
    } else if k < 24 {
    } else {
    }
  }

  /** And for distances, two symbols for each number of extra bits. */
  lemma DistanceTable(k: nat)
    requires k <= 29
    ensures |DIST_BASE| == 32 && |DIST_EXTRA| == 30
    ensures DIST_EXTRA[k] == if k < 4 then 0 else (k - 2) / 2
    ensures DIST_BASE[k] == if k < 4 then 1 + k else 1 + (2 + k % 2) * Pow2((k - 2) / 2)
  {
    SmallPowers();
    hide Pow2;
    if k < 8 {
    } else if k < 16 {
    } else if k < 24 {
    } else {
    }
  }

  // ----- fixed codes

  /** The fixed literal and length code (stb/stb_image.h:4431-4458). */
  function FixedLength(i: nat): nat {
    if i <= 143 then 8 else if i <= 255 then 9 else if i <= 279 then 7 else 8
  }

  function FixedLengths(): Lengths {
    seq(288, i requires 0 <= i < 288 => FixedLength(i))
  }

  function FixedDistances(): Lengths {
    seq(32, i => 5)
  }

  lemma {:induction false} FixedCounts(n: nat)
    requires n <= 288
    ensures CountTo(FixedLengths(), n, 8) == if n <= 144 then n else if n <= 280 then 144 else n - 136
    ensures CountTo(FixedLengths(), n, 9) == if n <= 144 then 0 else if n <= 256 then n - 144 else 112
    ensures CountTo(FixedLengths(), n, 7) == if n <= 256 then 0 else if n <= 280 then n - 256 else 24
    ensures forall s: nat :: s < 7 || s > 9 ==> CountTo(FixedLengths(), n, s) == 0
  {
    if n > 0 {
      FixedCounts(n - 1);
    }
  }

  lemma {:induction false} DistanceCounts(n: nat)
    requires n <= 32
    ensures CountTo(FixedDistances(), n, 5) == n
    ensures forall s: nat :: s != 5 ==> CountTo(FixedDistances(), n, s) == 0
  {
    if n > 0 {
      DistanceCounts(n - 1);
    }
  }

  lemma {:induction false} FirstZero(lens: Lengths, s: nat)
    requires forall t :: 1 <= t < s ==> Count(lens, t) == 0
    ensures First(lens, s) == 0
  {
    hide Count;
    if s > 1 {
      FirstZero(lens, s - 1);
      assert Count(lens, s - 1) == 0;
    }
  }

  lemma FixedFirst()
    ensures First(FixedLengths(), 7) == 0 && First(FixedLengths(), 8) == 0x30 && First(FixedLengths(), 9) == 0x190
    ensures Accepted(FixedLengths())
  {
    var lens := FixedLengths();
    FixedCountsAre();
    SmallPowers();
    hide FixedLengths, Count, Pow2;
    FirstZero(lens, 7);
    assert First(lens, 8) == 2 * End(lens, 7);
    assert First(lens, 9) == 2 * End(lens, 8);
  }

  lemma FixedCountsAre()
    ensures Count(FixedLengths(), 7) == 24 && Count(FixedLengths(), 8) == 152 && Count(FixedLengths(), 9) == 112
    ensures forall s: nat :: s < 7 || s > 9 ==> Count(FixedLengths(), s) == 0
  {
    FixedCounts(288);
    hide CountTo;
  }

  /** The fixed codes that the compressor writes out (stb/stb_image_write.h:884-888). */
  lemma FixedCode(i: nat)
    requires i < 288
    ensures |FixedLengths()| == 288 && FixedLengths()[i] == FixedLength(i)
    ensures CodeOf(FixedLengths(), i) ==
            if i <= 143 then 0x30 + i else if i <= 255 then 0x190 + i - 144
            else if i <= 279 then i - 256 else 0xc0 + i - 280
  {
    FixedFirst();
    FixedCounts(i);
    hide First, CountTo;
  }

  lemma DistanceCode(i: nat)
    requires i < 32
    ensures |FixedDistances()| == 32 && FixedDistances()[i] == 5 && CodeOf(FixedDistances(), i) == i
    ensures Accepted(FixedDistances())
  {
    var lens := FixedDistances();
    DistanceCounts(i);
    DistanceCounts(32);
    FirstZero(lens, 5);
    SmallPowers();
    hide First, CountTo, FixedDistances;
  }

  // ----- the compressor's encoding

  /** The last symbol whose base does not exceed x. */
  function IndexOf(base: seq<nat>, x: nat, top: nat): (j: nat)
    requires top < |base| && base[0] <= x
    ensures j <= top && base[j] <= x
    ensures forall k :: j < k <= top ==> x < base[k]
  {
    if top == 0 || base[top] <= x then top else IndexOf(base, x, top - 1)
  }

  function LengthIndex(length: nat): (j: nat)
    requires 3 <= length <= 258
    ensures j <= 28 && LENGTH_BASE[j] <= length && length - LENGTH_BASE[j] < Pow2(LENGTH_EXTRA[j])
  {
    var j := IndexOf(LENGTH_BASE, length, 28);
    LengthFits(length, j);
    j
  }

  lemma LengthFits(length: nat, j: nat)
    requires length <= 258 && j <= 28 && LENGTH_BASE[j] <= length
    requires forall k :: j < k <= 28 ==> length < LENGTH_BASE[k]
    ensures length - LENGTH_BASE[j] < Pow2(LENGTH_EXTRA[j])
  {
    SmallPowers();
    hide Pow2;
    if j < 28 {
      assert length < LENGTH_BASE[j + 1];
    }
  }

  function DistanceIndex(distance: nat): (j: nat)
    requires 1 <= distance <= 32767
    ensures j <= 29 && DIST_BASE[j] <= distance && distance - DIST_BASE[j] < Pow2(DIST_EXTRA[j])
  {
    var j := IndexOf(DIST_BASE, distance, 29);
    DistanceFits(distance, j);
    j
  }

  lemma DistanceFits(distance: nat, j: nat)
    requires distance <= 32767 && j <= 29 && DIST_BASE[j] <= distance
    requires forall k :: j < k <= 29 ==> distance < DIST_BASE[k]
    ensures distance - DIST_BASE[j] < Pow2(DIST_EXTRA[j])
  {
    SmallPowers();
    hide Pow2;
    if j < 29 {
      assert distance < DIST_BASE[j + 1];
    }
  }

  function FixedBits(i: nat): Bits
    requires i < 288
  {
    CodeBits(FixedLengths(), i)
  }

  predicate Encodable(t: Token) {
    t.Match? ==> 3 <= t.length <= 258 && 1 <= t.distance <= 32767
  }

  function EncodeToken(t: Token): Bits
    requires Encodable(t)
  {
    match t
    case Literal(byte) => FixedBits(byte)
    case Match(length, distance) =>
      var j, k := LengthIndex(length), DistanceIndex(distance);
      FixedBits(j + 257) + ToBits(length - LENGTH_BASE[j], LENGTH_EXTRA[j])
      + CodeBits(FixedDistances(), k) + ToBits(distance - DIST_BASE[k], DIST_EXTRA[k])
  }
}
