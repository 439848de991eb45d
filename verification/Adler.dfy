// The checksum at the end of a zlib stream (stb/stb_image_write.h:1001-1016; RFC 1950, section 8.2).
module Adler {
  import opened BitOps
  import opened BitStream

  const ADLER_MOD: nat := 65521

  datatype Sums = Sums(s1: nat, s2: nat)

  /** Both sums reduced after every byte. */
  function AdlerSums(data: seq<Byte>): (r: Sums)
    ensures r.s1 < ADLER_MOD && r.s2 < ADLER_MOD
  {
    if |data| == 0 then Sums(1, 0)
    else
      var before := AdlerSums(data[..|data| - 1]);
      var s1 := (before.s1 + data[|data| - 1]) % ADLER_MOD;
      Sums(s1, (before.s2 + s1) % ADLER_MOD)
  }

  // ----- what the sums are

  /** The sum of the first k bytes. */
  function ByteSum(data: seq<Byte>, k: nat): nat
    requires k <= |data|
  {
    if k == 0 then 0 else ByteSum(data, k - 1) + data[k - 1]
  }

  /** The sum of the first k bytes, each as often as there are bytes from it on up to n. */
  function WeightedSum(data: seq<Byte>, n: nat, k: nat): nat
    requires k <= |data| && k <= n
  {
    if k == 0 then 0 else WeightedSum(data, n, k - 1) + (n - (k - 1)) * data[k - 1]
  }

  lemma {:induction false} SumsPrefix(data: seq<Byte>, m: nat, n: nat, k: nat)
    requires k <= m <= |data| && k <= n
    ensures ByteSum(data[..m], k) == ByteSum(data, k) && WeightedSum(data[..m], n, k) == WeightedSum(data, n, k)
  {
    if k > 0 {
      SumsPrefix(data, m, n, k - 1);
    }
  }

  /** One byte more raises every weight by one. */
  lemma {:induction false} WeightsGrow(data: seq<Byte>, n: nat, k: nat)
    requires k <= |data| && k <= n
    ensures WeightedSum(data, n + 1, k) == WeightedSum(data, n, k) + ByteSum(data, k)
  {
    if k > 0 {
      WeightsGrow(data, n, k - 1);
      var x: nat := data[k - 1];
      assert (n + 1 - (k - 1)) * x == (n - (k - 1)) * x + x;
    }
  }

  function Mod(x: nat): nat {
    x % 65521
  }

  lemma ModIs(x: nat)
    ensures x % ADLER_MOD == Mod(x)
  {
  }

  /** One byte x after n - 1 bytes with sum s and weighted sum w. */
  lemma NextSums(s: nat, w: nat, n: nat, x: nat)
    requires n > 0
    ensures Mod(Mod(1 + s) + x) == Mod(1 + (s + x))
    ensures Mod(Mod(n - 1 + w) + Mod(1 + (s + x))) == Mod(n + (w + s + x))
  {
    ModSum(1 + s, x);
    ModSum(n - 1 + w, 1 + s + x);
    hide Mod;
    assert n - 1 + w + (1 + s + x) == n + (w + s + x);
  }

  lemma ModSum(x: nat, y: nat)
    ensures Mod(x + y) == Mod(Mod(x) + y) == Mod(Mod(x) + Mod(y))
  {
  }

  lemma LastWeight(data: seq<Byte>)
    requires |data| > 0
    ensures var n := |data|;
      && ByteSum(data, n) == ByteSum(data, n - 1) + data[n - 1]
      && WeightedSum(data, n, n) == WeightedSum(data, n - 1, n - 1) + ByteSum(data, n - 1) + data[n - 1]
  {
    var n := |data|;
    var x: nat := data[n - 1];
    WeightsGrow(data, n - 1, n - 1);
    assert WeightedSum(data, n, n) == WeightedSum(data, n, n - 1) + 1 * x;
  }

  lemma LastSums(data: seq<Byte>)
    requires |data| > 0
    ensures var before, x: nat := AdlerSums(data[..|data| - 1]), data[|data| - 1];
      AdlerSums(data) == Sums(Mod(before.s1 + x), Mod(before.s2 + Mod(before.s1 + x)))
  {
    hide Mod;
    var before, x: nat := AdlerSums(data[..|data| - 1]), data[|data| - 1];
    ModIs(before.s1 + x);
    ModIs(before.s2 + Mod(before.s1 + x));
  }

  lemma {:induction false} SumsClosed(data: seq<Byte>)
    ensures AdlerSums(data) ==
            Sums(Mod(1 + ByteSum(data, |data|)), Mod(|data| + WeightedSum(data, |data|, |data|)))
    decreases |data|
  {
    hide AdlerSums, Mod, ByteSum, WeightedSum;
    if |data| == 0 {
      NoSums(data);
    } else {
      var n := |data|;
      SumsClosed(data[..n - 1]);
      SumsPrefix(data, n - 1, n - 1, n - 1);
      LastSums(data);
      LastWeight(data);
      NextSums(ByteSum(data, n - 1), WeightedSum(data, n - 1, n - 1), n, data[n - 1]);
    }
  }

  /**
   * Section 8.2 of RFC 1950 in closed form: one plus the sum of all bytes, and the sum of these sums after every byte,
   * both modulo 65521.
   */
  lemma AdlerClosed(data: seq<Byte>)
    ensures AdlerSums(data).s1 == (1 + ByteSum(data, |data|)) % 65521
    ensures AdlerSums(data).s2 == (|data| + WeightedSum(data, |data|, |data|)) % 65521
  {
    SumsClosed(data);
    hide AdlerSums, ByteSum, WeightedSum;
  }

  lemma NoSums(data: seq<Byte>)
    requires |data| == 0
    ensures AdlerSums(data) == Sums(Mod(1), Mod(0)) && ByteSum(data, 0) == 0 && WeightedSum(data, 0, 0) == 0
  {
  }

  /** The running sums of a chunk agree with the reduced ones, and stay below these bounds after n bytes. */
  ghost predicate Running(data: seq<Byte>, n: nat, s1: nat, s2: nat) {
    && s1 % ADLER_MOD == AdlerSums(data).s1 && s2 % ADLER_MOD == AdlerSums(data).s2
    && s1 <= 65520 + 255 * n
    && 2 * s2 <= 131040 * (n + 1) + 255 * (n * (n + 1))
  }

  /** 5552 is small enough: no sum of a chunk wraps around. */
  lemma NoWrap(n: nat, s1: nat, s2: nat)
    requires n <= 5552 && s1 <= 65520 + 255 * n && 2 * s2 <= 131040 * (n + 1) + 255 * (n * (n + 1))
    ensures s1 < 0x1_0000_0000 && s2 < 0x1_0000_0000
  {
    assert n * (n + 1) <= 5552 * 5553 by {
      ProductAtMost(n, 5552, n + 1, 5553);
    }
  }

  lemma ModAdd(x: nat, y: nat)
    ensures (x + y) % ADLER_MOD == (x % ADLER_MOD + y) % ADLER_MOD
    ensures (x + y) % ADLER_MOD == (x % ADLER_MOD + y % ADLER_MOD) % ADLER_MOD
  {
  }

  /** One byte further. */
  lemma RunningStep(data: seq<Byte>, x: Byte, n: nat, s1: nat, s2: nat)
    requires n < 5552 && Running(data, n, s1, s2)
    ensures U32(s1 + x) == s1 + x && U32(s2 + (s1 + x)) == s2 + (s1 + x)
    ensures Running(data + [x], n + 1, s1 + x, s2 + (s1 + x))
  {
    hide AdlerSums;
    SumsStep(data, x, s1, s2);
    NextBounds(n, x, s1, s2);
    NoWrap(n + 1, s1 + x, s2 + (s1 + x));
  }

  lemma NextBounds(n: nat, x: Byte, s1: nat, s2: nat)
    requires s1 <= 65520 + 255 * n && 2 * s2 <= 131040 * (n + 1) + 255 * (n * (n + 1))
    ensures s1 + x <= 65520 + 255 * (n + 1)
    ensures 2 * (s2 + (s1 + x)) <= 131040 * (n + 2) + 255 * ((n + 1) * (n + 2))
  {
    Triangle(n);
  }

  lemma Triangle(n: nat)
    ensures (n + 1) * (n + 2) == n * (n + 1) + 2 * (n + 1)
  {
  }

  lemma SumsStep(data: seq<Byte>, x: Byte, s1: nat, s2: nat)
    requires s1 % ADLER_MOD == AdlerSums(data).s1 && s2 % ADLER_MOD == AdlerSums(data).s2
    ensures var r := AdlerSums(data + [x]);
      (s1 + x) % ADLER_MOD == r.s1 && (s2 + (s1 + x)) % ADLER_MOD == r.s2
  {
    assert (data + [x])[..|data|] == data;
    ModAdd(s1, x);
    ModAdd(s2, s1 + x);
  }

  lemma RunningReduced(data: seq<Byte>, n: nat, s1: nat, s2: nat)
    requires Running(data, n, s1, s2)
    ensures Running(data, 0, s1 % ADLER_MOD, s2 % ADLER_MOD)
  {
  }

  /** The four trailing bytes. */
  function AdlerBytes(data: seq<Byte>): (b: seq<Byte>)
    ensures |b| == 4
  {
    var r := AdlerSums(data);
    [r.s2 / 256 % 256, r.s2 % 256, r.s1 / 256 % 256, r.s1 % 256]
  }

  /** Four bytes as a number, the most significant one first. */
  function BigEndian(b: seq<Byte>): nat
    requires |b| == 4
  {
    var b0: nat, b1: nat, b2: nat, b3: nat := b[0], b[1], b[2], b[3];
    b0 * 0x100_0000 + b1 * 0x1_0000 + b2 * 0x100 + b3
  }

  /** Section 8.2 of RFC 1950 in closed form, with the second sum in the upper half. */
  function Checksum(data: seq<Byte>): nat {
    (|data| + WeightedSum(data, |data|, |data|)) % 65521 * 0x1_0000 + (1 + ByteSum(data, |data|)) % 65521
  }

  /** The trailing bytes are that number. */
  lemma TrailerIs(data: seq<Byte>)
    ensures BigEndian(AdlerBytes(data)) == Checksum(data)
  {
    AdlerClosed(data);
    var r := AdlerSums(data);
    TwoBytes(r.s1);
    TwoBytes(r.s2);
    hide AdlerSums, WeightedSum, ByteSum;
  }

  lemma TwoBytes(x: nat)
    requires x < 65536
    ensures x / 256 % 256 * 256 + x % 256 == x
  {
  }

  /** Lines 1003 to 1015: sums over a short first chunk and then chunks of 5552 bytes, each reduced once. */
  method ComputeAdler(data: seq<Byte>) returns (trailer: seq<Byte>)
    ensures trailer == AdlerBytes(data) && BigEndian(trailer) == Checksum(data)
  {
    hide AdlerSums, Running, BigEndian, Checksum;
    TrailerIs(data);
    var s1: nat, s2: nat := 1, 0;
    var blocklen := |data| % 5552;
    var j := 0;
    RunningStart();
    assert data[..0] == [];
    while j < |data|
      invariant j <= |data| && 0 <= blocklen <= 5552 && Running(data[..j], 0, s1, s2)
      invariant j < |data| ==> (|data| - j) % 5552 == blocklen % 5552
      invariant s1 < ADLER_MOD && s2 < ADLER_MOD
      decreases |data| - j, 5552 - blocklen
    {
      ChunkFits(|data| - j, blocklen);
      s1, s2 := AddChunk(data, j, blocklen, s1, s2);
      RunningReduced(data[..j + blocklen], blocklen, s1, s2);
      s1, s2 := s1 % ADLER_MOD, s2 % ADLER_MOD;
      j := j + blocklen;
      blocklen := 5552;
    }
    assert data[..j] == data;
    RunningEnd(data, s1, s2);
    trailer := [s2 / 256 % 256, s2 % 256, s1 / 256 % 256, s1 % 256];
  }

  lemma RunningEnd(data: seq<Byte>, s1: nat, s2: nat)
    requires Running(data, 0, s1, s2) && s1 < ADLER_MOD && s2 < ADLER_MOD
    ensures AdlerSums(data) == Sums(s1, s2)
  {
  }

  /** Line 1007. */
  method AddChunk(data: seq<Byte>, j: nat, blocklen: nat, start1: nat, start2: nat) returns (s1: nat, s2: nat)
    requires j + blocklen <= |data| && blocklen <= 5552 && Running(data[..j], 0, start1, start2)
    ensures Running(data[..j + blocklen], blocklen, s1, s2)
  {
    hide AdlerSums, Running, U32;
    s1, s2 := start1, start2;
    var i := 0;
    while i < blocklen
      invariant i <= blocklen && Running(data[..j + i], i, s1, s2)
    {
      RunningStep(data[..j + i], data[j + i], i, s1, s2);
      assert data[..j + i] + [data[j + i]] == data[..j + i + 1];
      s1 := U32(s1 + data[j + i]);
      s2 := U32(s2 + s1);
      i := i + 1;
    }
  }

  lemma RunningStart()
    ensures Running([], 0, 1, 0)
  {
  }

  lemma ChunkFits(left: nat, blocklen: nat)
    requires 0 < left && left % 5552 == blocklen % 5552 && blocklen <= 5552
    ensures blocklen <= left && (left - blocklen) % 5552 == 0
  {
  }
}
